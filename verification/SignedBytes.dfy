/** The canonical signed bytes: hand-built JSON in fixed key order, proved to be the compact
    JSON of the record and to determine everything they cover. UTF-8 is left implicit: bytes
    are the characters of the text. */
module SignedBytes {
  import opened Common
  import opened Records
  import opened CapsCanon
  import opened Json

  const CAPS_DOMAIN: string := "Shade Tree gateway capabilities v1\n"
  const RECEIPT_DOMAIN: string := "Shade Tree egress success receipt v1\n"

  // ------------------------------------------------------------------------
  // Records as JSON values
  // ------------------------------------------------------------------------

  /** The fields that are present, in order. */
  function Present(opts: seq<Option<Field>>): seq<Field>
    decreases |opts|
  {
    if |opts| == 0 then []
    else
      var last := opts[|opts| - 1];
      Present(opts[..|opts| - 1]) + (if last.Some? then [last.value] else [])
  }

  function Nums(xs: seq<nat>): (r: seq<Json>)
    ensures |r| == |xs| && forall i :: 0 <= i < |xs| ==> r[i] == Num(xs[i])
  {
    seq(|xs|, i requires 0 <= i < |xs| => Num(xs[i]))
  }

  function Strs(xs: seq<string>): (r: seq<Json>)
    ensures |r| == |xs| && forall i :: 0 <= i < |xs| ==> r[i] == Str(xs[i])
  {
    seq(|xs|, i requires 0 <= i < |xs| => Str(xs[i]))
  }

  function Tiers(xs: seq<(nat, string)>): (r: seq<Field>)
    ensures |r| == |xs| && forall i :: 0 <= i < |xs| ==> r[i] == Field(Dec(xs[i].0), Str(xs[i].1))
  {
    seq(|xs|, i requires 0 <= i < |xs| => Field(Dec(xs[i].0), Str(xs[i].1)))
  }

  /** A field that is there when its value is. */
  function Opt<T>(key: string, o: Option<T>, json: T -> Json): Option<Field> {
    if o.None? then None else Some(Field(key, json(o.value)))
  }

  function PayFields(p: CanonicalPay): seq<Option<Field>> {
    [Some(Field("protocols", Arr(Strs(p.protocols)))), Opt("onion", p.onion, s => Str(s)),
     Some(Field("port", Num(p.port))), Some(Field("asset", Str(p.asset))), Some(Field("chain", Str(p.chain))),
     Some(Field("tiers", Obj(Tiers(p.tiers))))]
  }

  function PayJson(p: CanonicalPay): Json { Obj(Present(PayFields(p))) }

  function RateFields(r: CanonicalRate): seq<Option<Field>> {
    [Some(Field("scope", Str(r.scope))), Some(Field("window", Str(r.window))),
     Some(Field("epochSeconds", Num(r.epochSeconds))), Some(Field("previousEpochsAccepted", Num(r.previousEpochsAccepted))),
     Some(Field("rootFreshnessSeconds", Num(r.rootFreshnessSeconds))),
     Some(Field("payloadBytesPerSlot", Num(r.payloadBytesPerSlot)))]
  }

  function RateJson(r: CanonicalRate): Json { Obj(Present(RateFields(r))) }

  function ProtoFields(p: (nat, nat)): seq<Option<Field>> {
    [Some(Field("min", Num(p.0))), Some(Field("max", Num(p.1)))]
  }

  function ProtoJson(p: (nat, nat)): Json { Obj(Present(ProtoFields(p))) }

  function CapsFields(cc: CanonicalCaps): seq<Option<Field>> {
    [Opt("ports", cc.ports, xs => Arr(Nums(xs))), Opt("region", cc.region, s => Str(s)),
     Opt("proto", cc.proto, ProtoJson), Opt("artifacts", cc.artifacts, xs => Arr(Strs(xs))),
     Opt("admits", cc.admits, xs => Arr(Strs(xs))), Opt("pay", cc.pay, PayJson), Opt("rate", cc.rate, RateJson)]
  }

  function CapsJson(cc: CanonicalCaps): Json { Obj(Present(CapsFields(cc))) }

  /** What the signature over a gateway entry covers. */
  datatype SignedGateway = SignedGateway(onion: string, pubkey: string, weight: nat, health: string,
                                         caps: Option<CanonicalCaps>, capsSig: Option<string>)

  function CoveredCaps(caps: Option<Caps>): Option<CanonicalCaps> {
    if caps.Some? && HasCaps(caps.value) then Some(Canonical(caps.value)) else None
  }

  function Covered(g: GatewayEntry): SignedGateway {
    var caps := CoveredCaps(g.caps);
    SignedGateway(g.onion, g.pubkey, g.weight, g.health, caps, if caps.None? then None else g.capsSig)
  }

  function GatewayFields(g: SignedGateway): seq<Option<Field>> {
    [Some(Field("onion", Str(g.onion))), Some(Field("pubkey", Str(g.pubkey))), Some(Field("weight", Num(g.weight))),
     Some(Field("health", Str(g.health))), Opt("caps", g.caps, CapsJson), Opt("capsSig", g.capsSig, s => Str(s))]
  }

  function GatewayJson(g: GatewayEntry): Json { Obj(Present(GatewayFields(Covered(g)))) }

  function Gateways(gs: seq<GatewayEntry>): (r: seq<Json>)
    ensures |r| == |gs| && forall i :: 0 <= i < |gs| ==> r[i] == GatewayJson(gs[i])
  {
    seq(|gs|, i requires 0 <= i < |gs| => GatewayJson(gs[i]))
  }

  function DirectoryFields(d: Directory): seq<Option<Field>> {
    [Some(Field("version", Num(d.version))), Some(Field("issued", Num(d.issued))),
     Some(Field("gateways", Arr(Gateways(d.gateways))))]
  }

  function DirectoryBytes(d: Directory): string { Print(Obj(Present(DirectoryFields(d)))) }

  function AnnounceFields(a: Announce): seq<Option<Field>> {
    [Some(Field("v", Num(a.v))), Some(Field("onion", Str(a.onion))), Some(Field("weight", Num(a.weight))),
     Some(Field("ts", Num(a.ts))), Some(Field("nonce", Str(a.nonce))), Opt("caps", CoveredCaps(a.caps), CapsJson)]
  }

  function AnnounceBytes(a: Announce): string { Print(Obj(Present(AnnounceFields(a)))) }

  function CapsRecordFields(onion: string, cc: CanonicalCaps): seq<Option<Field>> {
    [Some(Field("onion", Str(onion))), Some(Field("caps", CapsJson(cc)))]
  }

  function CapsBytes(onion: string, caps: Caps): string {
    CAPS_DOMAIN + Print(Obj(Present(CapsRecordFields(onion, Canonical(caps)))))
  }

  function ReceiptFields(r: Receipt): seq<Option<Field>> {
    [Some(Field("v", Num(r.v))), Some(Field("onion", Str(r.onion))), Some(Field("epoch", Str(r.epoch))),
     Some(Field("ok", Bool(r.ok)))]
  }

  function ReceiptBytes(r: Receipt): string { RECEIPT_DOMAIN + Print(Obj(Present(ReceiptFields(r)))) }

  // ------------------------------------------------------------------------
  // The field list determines the fields
  // ------------------------------------------------------------------------

  /** Position `i` may only hold a field of key `keys[i]`. */
  ghost predicate Keyed(keys: seq<string>, opts: seq<Option<Field>>) {
    |keys| == |opts| && forall i :: 0 <= i < |opts| && opts[i].Some? ==> opts[i].value.key == keys[i]
  }

  lemma {:induction false} PresentKeys(keys: seq<string>, opts: seq<Option<Field>>, f: Field)
    requires Keyed(keys, opts) && f in Present(opts)
    ensures f.key in keys
    decreases |opts|
  {
    var n := |opts| - 1;
    if f in Present(opts[..n]) {
      PresentKeys(keys[..n], opts[..n], f);
      assert f.key in keys[..n];
    } else {
      assert keys[n] in keys;
    }
  }

  /** Under distinct keys, equal lists of present fields have the same fields present. */
  lemma {:induction false} PresentInjective(keys: seq<string>, a: seq<Option<Field>>, b: seq<Option<Field>>)
    requires Keyed(keys, a) && Keyed(keys, b) && Distinct(keys) && Present(a) == Present(b)
    ensures a == b
    decreases |keys|
  {
    if |keys| > 0 {
      var n := |keys| - 1;
      assert keys[n] !in keys[..n];
      LastPresent(keys, a, b);
      LastPresent(keys, b, a);
      DropLast(Present(a[..n]), Present(b[..n]), a[n], b[n]);
      hide Present;
      PresentInjective(keys[..n], a[..n], b[..n]);
      assert a == a[..n] + [a[n]] && b == b[..n] + [b[n]];
    }
  }

  /** A last field that is present in one list is the last field of the other. */
  lemma LastPresent(keys: seq<string>, a: seq<Option<Field>>, b: seq<Option<Field>>)
    requires Keyed(keys, a) && Keyed(keys, b) && |keys| > 0 && Present(a) == Present(b)
    requires keys[|keys| - 1] !in keys[..|keys| - 1]
    ensures a[|keys| - 1].Some? ==> a[|keys| - 1] == b[|keys| - 1]
  {
    var n := |keys| - 1;
    if a[n].Some? {
      KeyAbsent(keys[..n], b[..n], a[n].value);
      assert Present(a)[|Present(a)| - 1] == a[n].value;
      assert a[n].value in Present(b);
    }
  }

  lemma DropLast(p: seq<Field>, q: seq<Field>, x: Option<Field>, y: Option<Field>)
    requires x == y && p + (if x.Some? then [x.value] else []) == q + (if y.Some? then [y.value] else [])
    ensures p == q
  {
    var whole := p + (if x.Some? then [x.value] else []);
    assert p == whole[..|p|] && q == whole[..|q|];
  }

  lemma KeyAbsent(keys: seq<string>, opts: seq<Option<Field>>, f: Field)
    requires Keyed(keys, opts) && f.key !in keys
    ensures f !in Present(opts)
  {
    if f in Present(opts) {
      PresentKeys(keys, opts, f);
      assert false;
    }
  }

  /** Equal objects with the same possible keys have the same fields. */
  lemma ObjectsAgree(keys: seq<string>, a: seq<Option<Field>>, b: seq<Option<Field>>)
    requires Keyed(keys, a) && Keyed(keys, b) && Distinct(keys) && Obj(Present(a)) == Obj(Present(b))
    ensures a == b
  {
    PresentInjective(keys, a, b);
  }

  lemma NumsInjective(xs: seq<nat>, ys: seq<nat>)
    requires Nums(xs) == Nums(ys)
    ensures xs == ys
  {}

  lemma StrsInjective(xs: seq<string>, ys: seq<string>)
    requires Strs(xs) == Strs(ys)
    ensures xs == ys
  {}

  lemma TiersInjective(xs: seq<(nat, string)>, ys: seq<(nat, string)>)
    requires Tiers(xs) == Tiers(ys)
    ensures xs == ys
  {
    assert |xs| == |Tiers(xs)| == |ys|;
    forall i | 0 <= i < |xs| ensures xs[i] == ys[i] {
      assert Tiers(xs)[i] == Tiers(ys)[i];
      DecRoundTrip(xs[i].0);
      DecRoundTrip(ys[i].0);
    }
  }

  const PROTO_KEYS: seq<string> := ["min", "max"]
  const PAY_KEYS: seq<string> := ["protocols", "onion", "port", "asset", "chain", "tiers"]
  const RATE_KEYS: seq<string> :=
    ["scope", "window", "epochSeconds", "previousEpochsAccepted", "rootFreshnessSeconds", "payloadBytesPerSlot"]
  const CAPS_KEYS: seq<string> := ["ports", "region", "proto", "artifacts", "admits", "pay", "rate"]
  const GATEWAY_KEYS: seq<string> := ["onion", "pubkey", "weight", "health", "caps", "capsSig"]
  const DIRECTORY_KEYS: seq<string> := ["version", "issued", "gateways"]
  const ANNOUNCE_KEYS: seq<string> := ["v", "onion", "weight", "ts", "nonce", "caps"]
  const CAPS_RECORD_KEYS: seq<string> := ["onion", "caps"]
  const RECEIPT_KEYS: seq<string> := ["v", "onion", "epoch", "ok"]

  lemma KeysDistinct()
    ensures Distinct(PROTO_KEYS) && Distinct(PAY_KEYS) && Distinct(RATE_KEYS) && Distinct(CAPS_KEYS)
    ensures Distinct(GATEWAY_KEYS) && Distinct(DIRECTORY_KEYS) && Distinct(ANNOUNCE_KEYS)
    ensures Distinct(CAPS_RECORD_KEYS) && Distinct(RECEIPT_KEYS)
  {}

  lemma PayJsonInjective(a: CanonicalPay, b: CanonicalPay)
    requires PayJson(a) == PayJson(b)
    ensures a == b
  {
    KeysDistinct();
    ObjectsAgree(PAY_KEYS, PayFields(a), PayFields(b));
    var x, y := PayFields(a), PayFields(b);
    assert x[0] == y[0] && x[1] == y[1] && x[2] == y[2] && x[3] == y[3] && x[4] == y[4] && x[5] == y[5];
    StrsInjective(a.protocols, b.protocols);
    TiersInjective(a.tiers, b.tiers);
  }

  lemma RateJsonInjective(a: CanonicalRate, b: CanonicalRate)
    requires RateJson(a) == RateJson(b)
    ensures a == b
  {
    KeysDistinct();
    ObjectsAgree(RATE_KEYS, RateFields(a), RateFields(b));
    var x, y := RateFields(a), RateFields(b);
    assert x[0] == y[0] && x[1] == y[1] && x[2] == y[2] && x[3] == y[3] && x[4] == y[4] && x[5] == y[5];
  }

  lemma ProtoJsonInjective(a: (nat, nat), b: (nat, nat))
    requires ProtoJson(a) == ProtoJson(b)
    ensures a == b
  {
    KeysDistinct();
    ObjectsAgree(PROTO_KEYS, ProtoFields(a), ProtoFields(b));
    var x, y := ProtoFields(a), ProtoFields(b);
    assert x[0] == y[0] && x[1] == y[1];
  }

  lemma CapsFieldsInjective(a: CanonicalCaps, b: CanonicalCaps)
    requires CapsFields(a) == CapsFields(b)
    ensures a == b
  {
    hide PayJson, RateJson, ProtoJson, Nums, Strs;
    var x, y := CapsFields(a), CapsFields(b);
    assert x[0] == y[0] && x[1] == y[1] && x[2] == y[2] && x[3] == y[3] && x[4] == y[4] && x[5] == y[5] && x[6] == y[6];
    if a.ports.Some? { NumsInjective(a.ports.value, b.ports.value); }
    if a.proto.Some? { ProtoJsonInjective(a.proto.value, b.proto.value); }
    if a.artifacts.Some? { StrsInjective(a.artifacts.value, b.artifacts.value); }
    if a.admits.Some? { StrsInjective(a.admits.value, b.admits.value); }
    if a.pay.Some? { PayJsonInjective(a.pay.value, b.pay.value); }
    if a.rate.Some? { RateJsonInjective(a.rate.value, b.rate.value); }
  }

  lemma CapsJsonInjective(a: CanonicalCaps, b: CanonicalCaps)
    requires CapsJson(a) == CapsJson(b)
    ensures a == b
  {
    hide PayJson, RateJson, ProtoJson, Nums, Strs, Present;
    KeysDistinct();
    ObjectsAgree(CAPS_KEYS, CapsFields(a), CapsFields(b));
    CapsFieldsInjective(a, b);
  }

  lemma GatewayJsonInjective(a: GatewayEntry, b: GatewayEntry)
    requires GatewayJson(a) == GatewayJson(b)
    ensures Covered(a) == Covered(b)
  {
    hide CapsJson, CoveredCaps;
    var g, h := Covered(a), Covered(b);
    KeysDistinct();
    ObjectsAgree(GATEWAY_KEYS, GatewayFields(g), GatewayFields(h));
    var x, y := GatewayFields(g), GatewayFields(h);
    assert x[0] == y[0] && x[1] == y[1] && x[2] == y[2] && x[3] == y[3] && x[4] == y[4] && x[5] == y[5];
    if g.caps.Some? { CapsJsonInjective(g.caps.value, h.caps.value); }
  }

  // ------------------------------------------------------------------------
  // Equal bytes, equal records
  // ------------------------------------------------------------------------

  /** What the signature over a directory covers. */
  ghost predicate SameDirectory(a: Directory, b: Directory) {
    && a.version == b.version && a.issued == b.issued && |a.gateways| == |b.gateways|
    && forall i :: 0 <= i < |a.gateways| ==> Covered(a.gateways[i]) == Covered(b.gateways[i])
  }

  /** The signed bytes of two directories are equal exactly when version, issue time and the
      gateway lists agree in onion, pubkey, weight, health, canonical caps and, where caps
      are present, capsSig. */
  lemma DirectoryBytesUnambiguous(a: Directory, b: Directory)
    ensures DirectoryBytes(a) == DirectoryBytes(b) <==> SameDirectory(a, b)
  {
    hide Print, GatewayJson, Covered;
    var x, y := DirectoryFields(a), DirectoryFields(b);
    if DirectoryBytes(a) == DirectoryBytes(b) {
      PrintInjective(Obj(Present(x)), Obj(Present(y)));
      KeysDistinct();
      ObjectsAgree(DIRECTORY_KEYS, x, y);
      assert x[0] == y[0] && x[1] == y[1] && x[2] == y[2];
      assert |a.gateways| == |Gateways(a.gateways)| == |b.gateways|;
      forall i | 0 <= i < |a.gateways| ensures Covered(a.gateways[i]) == Covered(b.gateways[i]) {
        assert Gateways(a.gateways)[i] == Gateways(b.gateways)[i];
        GatewayJsonInjective(a.gateways[i], b.gateways[i]);
      }
    }
    if SameDirectory(a, b) {
      forall i | 0 <= i < |a.gateways| ensures GatewayJson(a.gateways[i]) == GatewayJson(b.gateways[i]) {
        CoveredDecides(a.gateways[i], b.gateways[i]);
      }
      assert Gateways(a.gateways) == Gateways(b.gateways);
      assert x == y;
    }
  }

  lemma CoveredDecides(a: GatewayEntry, b: GatewayEntry)
    requires Covered(a) == Covered(b)
    ensures GatewayJson(a) == GatewayJson(b)
  {}

  ghost predicate SameAnnounce(a: Announce, b: Announce) {
    && a.v == b.v && a.onion == b.onion && a.weight == b.weight && a.ts == b.ts && a.nonce == b.nonce
    && CoveredCaps(a.caps) == CoveredCaps(b.caps)
  }

  lemma AnnounceBytesUnambiguous(a: Announce, b: Announce)
    ensures AnnounceBytes(a) == AnnounceBytes(b) <==> SameAnnounce(a, b)
  {
    hide Print, CapsJson, CoveredCaps;
    var x, y := AnnounceFields(a), AnnounceFields(b);
    if AnnounceBytes(a) == AnnounceBytes(b) {
      PrintInjective(Obj(Present(x)), Obj(Present(y)));
      KeysDistinct();
      ObjectsAgree(ANNOUNCE_KEYS, x, y);
      assert x[0] == y[0] && x[1] == y[1] && x[2] == y[2] && x[3] == y[3] && x[4] == y[4] && x[5] == y[5];
      var c, d := CoveredCaps(a.caps), CoveredCaps(b.caps);
      if c.Some? { CapsJsonInjective(c.value, d.value); }
    }
    if SameAnnounce(a, b) { assert x == y; }
  }

  lemma CapsBytesUnambiguous(onion: string, caps: Caps, onion': string, caps': Caps)
    ensures CapsBytes(onion, caps) == CapsBytes(onion', caps') <==> onion == onion' && Canonical(caps) == Canonical(caps')
  {
    hide Print, CapsJson, Canonical;
    var x, y := CapsRecordFields(onion, Canonical(caps)), CapsRecordFields(onion', Canonical(caps'));
    if CapsBytes(onion, caps) == CapsBytes(onion', caps') {
      DropDomain(CAPS_DOMAIN, Print(Obj(Present(x))), Print(Obj(Present(y))));
      PrintInjective(Obj(Present(x)), Obj(Present(y)));
      KeysDistinct();
      ObjectsAgree(CAPS_RECORD_KEYS, x, y);
      assert x[0] == y[0] && x[1] == y[1];
      CapsJsonInjective(Canonical(caps), Canonical(caps'));
    }
  }

  lemma ReceiptBytesUnambiguous(a: Receipt, b: Receipt)
    requires ReceiptBytes(a) == ReceiptBytes(b)
    ensures a == b
  {
    hide Print;
    var x, y := ReceiptFields(a), ReceiptFields(b);
    DropDomain(RECEIPT_DOMAIN, Print(Obj(Present(x))), Print(Obj(Present(y))));
    PrintInjective(Obj(Present(x)), Obj(Present(y)));
    KeysDistinct();
    ObjectsAgree(RECEIPT_KEYS, x, y);
    assert x[0] == y[0] && x[1] == y[1] && x[2] == y[2] && x[3] == y[3];
  }

  lemma DropDomain(domain: string, a: string, b: string)
    requires domain + a == domain + b
    ensures a == b
  {
    assert a == (domain + a)[|domain|..] && b == (domain + b)[|domain|..];
  }

  /** Bytes signed for one kind of record are never the bytes of another kind. */
  lemma KindsNeverCollide(d: Directory, a: Announce, onion: string, caps: Caps, r: Receipt)
    ensures DirectoryBytes(d) != AnnounceBytes(a)
    ensures DirectoryBytes(d) != CapsBytes(onion, caps) && AnnounceBytes(a) != CapsBytes(onion, caps)
    ensures DirectoryBytes(d) != ReceiptBytes(r) && AnnounceBytes(a) != ReceiptBytes(r)
    ensures CapsBytes(onion, caps) != ReceiptBytes(r)
  {
    hide Print;
    var x, y := Obj(Present(DirectoryFields(d))), Obj(Present(AnnounceFields(a)));
    PrintStarts(x);
    PrintStarts(y);
    FirstField(DirectoryFields(d));
    FirstField(AnnounceFields(a));
    assert x.fields[0].key == "version" && y.fields[0].key == "v";
    if Print(x) == Print(y) {
      PrintInjective(x, y);
      assert false;
    }
    assert CapsBytes(onion, caps)[0] == 'S' && ReceiptBytes(r)[0] == 'S';
    assert CapsBytes(onion, caps)[11] == CAPS_DOMAIN[11] == 'g';
    assert ReceiptBytes(r)[11] == RECEIPT_DOMAIN[11] == 'e';
  }

  lemma {:induction false} FirstField(opts: seq<Option<Field>>)
    requires |opts| > 0 && opts[0].Some?
    ensures |Present(opts)| > 0 && Present(opts)[0] == opts[0].value
    decreases |opts|
  {
    if |opts| > 1 { FirstField(opts[..|opts| - 1]); } else { assert opts[..0] == []; }
  }

  /** Reordered or repeated capability lists sign the same bytes. */
  lemma VariantsSignAlike(onion: string, a: Caps, b: Caps)
    requires Variants(a, b)
    ensures CapsBytes(onion, a) == CapsBytes(onion, b)
  {
    VariantsCanonicaliseAlike(a, b);
  }

  // ------------------------------------------------------------------------
  // Reading the signed bytes by name
  // ------------------------------------------------------------------------

  lemma {:induction false} GetAppended(fs: seq<Field>, gs: seq<Field>, key: string)
    ensures GetIn(fs + gs, key) == if GetIn(fs, key).Some? then GetIn(fs, key) else GetIn(gs, key)
    decreases |fs|
  {
    if |fs| == 0 {
      assert fs + gs == gs;
    } else {
      GetAppended(fs[1..], gs, key);
      assert (fs + gs)[1..] == fs[1..] + gs;
    }
  }

  lemma {:induction false} GetAbsent(keys: seq<string>, opts: seq<Option<Field>>, key: string)
    requires Keyed(keys, opts) && key !in keys
    ensures GetIn(Present(opts), key) == None
    decreases |opts|
  {
    if |opts| > 0 {
      var n := |opts| - 1;
      GetAbsent(keys[..n], opts[..n], key);
      GetAppended(Present(opts[..n]), if opts[n].Some? then [opts[n].value] else [], key);
      assert keys[n] in keys;
    }
  }

  /** Looking up a possible name finds its value, or nothing if the field is not there. */
  lemma {:induction false} GetPresent(keys: seq<string>, opts: seq<Option<Field>>, i: nat)
    requires Keyed(keys, opts) && Distinct(keys) && i < |keys|
    ensures GetIn(Present(opts), keys[i]) == if opts[i].None? then None else Some(opts[i].value.value)
    decreases |opts|
  {
    var n := |opts| - 1;
    var last := if opts[n].Some? then [opts[n].value] else [];
    GetAppended(Present(opts[..n]), last, keys[i]);
    if i < n {
      GetPresent(keys[..n], opts[..n], i);
      assert keys[i] != keys[n];
    } else {
      assert keys[n] !in keys[..n];
      GetAbsent(keys[..n], opts[..n], keys[n]);
    }
  }

  /** The names whose field is there, in order. */
  function PresentNames(opts: seq<Option<Field>>): seq<string>
    decreases |opts|
  {
    if |opts| == 0 then []
    else
      var last := opts[|opts| - 1];
      PresentNames(opts[..|opts| - 1]) + (if last.Some? then [last.value.key] else [])
  }

  lemma {:induction false} NamesPresent(opts: seq<Option<Field>>)
    ensures Names(Obj(Present(opts))) == PresentNames(opts)
    decreases |opts|
  {
    if |opts| > 0 { NamesPresent(opts[..|opts| - 1]); }
  }

  function Value<T>(o: Option<T>, json: T -> Json): Option<Json> {
    if o.None? then None else Some(json(o.value))
  }

  function IfAny<T>(o: Option<T>, name: string): seq<string> { if o.None? then [] else [name] }

  /** Every capability under its own name and in the fixed order. */
  ghost predicate ReadsCaps(j: Json, cc: CanonicalCaps) {
    && Get(j, "ports") == Value(cc.ports, xs => Arr(Nums(xs)))
    && Get(j, "region") == Value(cc.region, s => Str(s))
    && (cc.proto.None? ==> Get(j, "proto") == None)
    && (cc.proto.Some? ==> Get(j, "proto").Some? && ReadsProto(Get(j, "proto").value, cc.proto.value))
    && Get(j, "artifacts") == Value(cc.artifacts, xs => Arr(Strs(xs)))
    && Get(j, "admits") == Value(cc.admits, xs => Arr(Strs(xs)))
    && (cc.pay.None? ==> Get(j, "pay") == None)
    && (cc.pay.Some? ==> Get(j, "pay").Some? && ReadsPay(Get(j, "pay").value, cc.pay.value))
    && (cc.rate.None? ==> Get(j, "rate") == None)
    && (cc.rate.Some? ==> Get(j, "rate").Some? && ReadsRate(Get(j, "rate").value, cc.rate.value))
    && j.Obj?
    && Names(j) == IfAny(cc.ports, "ports") + IfAny(cc.region, "region") + IfAny(cc.proto, "proto")
                   + IfAny(cc.artifacts, "artifacts") + IfAny(cc.admits, "admits") + IfAny(cc.pay, "pay") + IfAny(cc.rate, "rate")
  }

  ghost predicate ReadsProto(j: Json, p: (nat, nat)) {
    Get(j, "min") == Some(Num(p.0)) && Get(j, "max") == Some(Num(p.1)) && j.Obj? && Names(j) == ["min", "max"]
  }

  ghost predicate ReadsPay(j: Json, p: CanonicalPay) {
    && Get(j, "protocols") == Some(Arr(Strs(p.protocols))) && Get(j, "onion") == Value(p.onion, s => Str(s))
    && Get(j, "port") == Some(Num(p.port)) && Get(j, "asset") == Some(Str(p.asset)) && Get(j, "chain") == Some(Str(p.chain))
    && Get(j, "tiers") == Some(Obj(Tiers(p.tiers)))
    && j.Obj? && Names(j) == ["protocols"] + IfAny(p.onion, "onion") + ["port", "asset", "chain", "tiers"]
  }

  ghost predicate ReadsRate(j: Json, r: CanonicalRate) {
    && Get(j, "scope") == Some(Str(r.scope)) && Get(j, "window") == Some(Str(r.window))
    && Get(j, "epochSeconds") == Some(Num(r.epochSeconds))
    && Get(j, "previousEpochsAccepted") == Some(Num(r.previousEpochsAccepted))
    && Get(j, "rootFreshnessSeconds") == Some(Num(r.rootFreshnessSeconds))
    && Get(j, "payloadBytesPerSlot") == Some(Num(r.payloadBytesPerSlot))
    && j.Obj?
    && Names(j) == ["scope", "window", "epochSeconds", "previousEpochsAccepted", "rootFreshnessSeconds", "payloadBytesPerSlot"]
  }

  /** A gateway entry as the signed text shows it: capabilities and their signature only when
      there are any capabilities. */
  ghost predicate ReadsGateway(j: Json, g: GatewayEntry) {
    && Get(j, "onion") == Some(Str(g.onion)) && Get(j, "pubkey") == Some(Str(g.pubkey))
    && Get(j, "weight") == Some(Num(g.weight)) && Get(j, "health") == Some(Str(g.health))
    && ReadsCovered(Get(j, "caps"), g.caps)
    && Get(j, "capsSig") == Value(if Get(j, "caps").None? then None else g.capsSig, s => Str(s))
    && j.Obj?
    && Names(j) == ["onion", "pubkey", "weight", "health"] + IfAny(Get(j, "caps"), "caps") + IfAny(Get(j, "capsSig"), "capsSig")
  }

  ghost predicate ReadsCovered(j: Option<Json>, caps: Option<Caps>) {
    if caps.Some? && HasCaps(caps.value) then j.Some? && ReadsCaps(j.value, Canonical(caps.value)) else j == None
  }

  ghost predicate ReadsDirectory(j: Json, d: Directory) {
    && Get(j, "version") == Some(Num(d.version)) && Get(j, "issued") == Some(Num(d.issued))
    && Get(j, "gateways").Some? && Get(j, "gateways").value.Arr?
    && var gs := Get(j, "gateways").value.items;
    && |gs| == |d.gateways| && (forall i :: 0 <= i < |gs| ==> ReadsGateway(gs[i], d.gateways[i]))
    && j.Obj? && Names(j) == ["version", "issued", "gateways"]
  }

  function NameOf(opt: Option<Field>): seq<string> { if opt.Some? then [opt.value.key] else [] }

  lemma LastName(opts: seq<Option<Field>>)
    requires |opts| > 0
    ensures PresentNames(opts) == PresentNames(opts[..|opts| - 1]) + NameOf(opts[|opts| - 1])
  {}

  lemma NamesOf1(opts: seq<Option<Field>>)
    requires |opts| == 1
    ensures PresentNames(opts) == NameOf(opts[0])
  {
    assert opts[..0] == [] && PresentNames([]) == [];
  }

  lemma NamesOf2(opts: seq<Option<Field>>)
    requires |opts| == 2
    ensures PresentNames(opts) == NameOf(opts[0]) + NameOf(opts[1])
  {
    LastName(opts);
    hide PresentNames, NameOf;
    NamesOf1(opts[..1]);
  }

  lemma NamesOf3(opts: seq<Option<Field>>)
    requires |opts| == 3
    ensures PresentNames(opts) == NameOf(opts[0]) + NameOf(opts[1]) + NameOf(opts[2])
  {
    LastName(opts);
    hide PresentNames, NameOf;
    NamesOf2(opts[..2]);
  }

  lemma NamesOf4(opts: seq<Option<Field>>)
    requires |opts| == 4
    ensures PresentNames(opts) == NameOf(opts[0]) + NameOf(opts[1]) + NameOf(opts[2]) + NameOf(opts[3])
  {
    LastName(opts);
    hide PresentNames, NameOf;
    NamesOf3(opts[..3]);
  }

  lemma NamesOf5(opts: seq<Option<Field>>)
    requires |opts| == 5
    ensures PresentNames(opts) == NameOf(opts[0]) + NameOf(opts[1]) + NameOf(opts[2]) + NameOf(opts[3]) + NameOf(opts[4])
  {
    LastName(opts);
    hide PresentNames, NameOf;
    NamesOf4(opts[..4]);
  }

  lemma NamesOf6(opts: seq<Option<Field>>)
    requires |opts| == 6
    ensures PresentNames(opts) == NameOf(opts[0]) + NameOf(opts[1]) + NameOf(opts[2]) + NameOf(opts[3]) + NameOf(opts[4]) + NameOf(opts[5])
  {
    LastName(opts);
    hide PresentNames, NameOf;
    NamesOf5(opts[..5]);
  }

  lemma NamesOf7(opts: seq<Option<Field>>)
    requires |opts| == 7
    ensures PresentNames(opts) == NameOf(opts[0]) + NameOf(opts[1]) + NameOf(opts[2]) + NameOf(opts[3]) + NameOf(opts[4]) + NameOf(opts[5]) + NameOf(opts[6])
  {
    LastName(opts);
    hide PresentNames, NameOf;
    NamesOf6(opts[..6]);
  }

  lemma ProtoReads(p: (nat, nat))
    ensures ReadsProto(ProtoJson(p), p)
  {
    hide Present, PresentNames, Names;
    KeysDistinct();
    var f := ProtoFields(p);
    GetPresent(PROTO_KEYS, f, 0);
    GetPresent(PROTO_KEYS, f, 1);
    NamesPresent(f);
    NamesOf2(f);
  }

  lemma PayReads(p: CanonicalPay)
    ensures ReadsPay(PayJson(p), p)
  {
    hide Present, PresentNames, Names;
    KeysDistinct();
    var f := PayFields(p);
    GetPresent(PAY_KEYS, f, 0);
    GetPresent(PAY_KEYS, f, 1);
    GetPresent(PAY_KEYS, f, 2);
    GetPresent(PAY_KEYS, f, 3);
    GetPresent(PAY_KEYS, f, 4);
    GetPresent(PAY_KEYS, f, 5);
    NamesPresent(f);
    NamesOf6(f);
  }

  lemma RateReads(r: CanonicalRate)
    ensures ReadsRate(RateJson(r), r)
  {
    hide Present, PresentNames, Names;
    KeysDistinct();
    var f := RateFields(r);
    GetPresent(RATE_KEYS, f, 0);
    GetPresent(RATE_KEYS, f, 1);
    GetPresent(RATE_KEYS, f, 2);
    GetPresent(RATE_KEYS, f, 3);
    GetPresent(RATE_KEYS, f, 4);
    GetPresent(RATE_KEYS, f, 5);
    NamesPresent(f);
    NamesOf6(f);
  }

  lemma CapsReads(cc: CanonicalCaps)
    ensures ReadsCaps(CapsJson(cc), cc)
  {
    hide Present, PresentNames, Names, PayJson, RateJson, ProtoJson, ReadsPay, ReadsRate, ReadsProto;
    KeysDistinct();
    var f := CapsFields(cc);
    GetPresent(CAPS_KEYS, f, 0);
    GetPresent(CAPS_KEYS, f, 1);
    GetPresent(CAPS_KEYS, f, 2);
    GetPresent(CAPS_KEYS, f, 3);
    GetPresent(CAPS_KEYS, f, 4);
    GetPresent(CAPS_KEYS, f, 5);
    GetPresent(CAPS_KEYS, f, 6);
    NamesPresent(f);
    NamesOf7(f);
    if cc.proto.Some? { ProtoReads(cc.proto.value); }
    if cc.pay.Some? { PayReads(cc.pay.value); }
    if cc.rate.Some? { RateReads(cc.rate.value); }
  }

  lemma GatewayReads(g: GatewayEntry)
    ensures ReadsGateway(GatewayJson(g), g)
  {
    hide Present, PresentNames, Names, CapsJson, ReadsCaps, Canonical, HasCaps;
    KeysDistinct();
    var f := GatewayFields(Covered(g));
    GetPresent(GATEWAY_KEYS, f, 0);
    GetPresent(GATEWAY_KEYS, f, 1);
    GetPresent(GATEWAY_KEYS, f, 2);
    GetPresent(GATEWAY_KEYS, f, 3);
    GetPresent(GATEWAY_KEYS, f, 4);
    GetPresent(GATEWAY_KEYS, f, 5);
    NamesPresent(f);
    NamesOf6(f);
    if g.caps.Some? && HasCaps(g.caps.value) { CapsReads(Canonical(g.caps.value)); }
  }

  /** The signed bytes of a directory, read as JSON and looked up by name, give back its
      version, issue time and gateways, in the order they are printed. */
  lemma DirectoryReadsBack(d: Directory)
    ensures Read(DirectoryBytes(d)).Some? && ReadsDirectory(Read(DirectoryBytes(d)).value, d)
  {
    hide Present, PresentNames, Names, Print, Read, GatewayJson, ReadsGateway;
    KeysDistinct();
    var f := DirectoryFields(d);
    ReadPrint(Obj(Present(f)));
    GetPresent(DIRECTORY_KEYS, f, 0);
    GetPresent(DIRECTORY_KEYS, f, 1);
    GetPresent(DIRECTORY_KEYS, f, 2);
    NamesPresent(f);
    NamesOf3(f);
    forall i | 0 <= i < |d.gateways| ensures ReadsGateway(Gateways(d.gateways)[i], d.gateways[i]) {
      GatewayReads(d.gateways[i]);
    }
  }

  /** Likewise for an announce. */
  lemma AnnounceReadsBack(a: Announce)
    ensures Read(AnnounceBytes(a)).Some?
    ensures var j := Read(AnnounceBytes(a)).value;
            && Get(j, "v") == Some(Num(a.v)) && Get(j, "onion") == Some(Str(a.onion)) && Get(j, "weight") == Some(Num(a.weight))
            && Get(j, "ts") == Some(Num(a.ts)) && Get(j, "nonce") == Some(Str(a.nonce)) && ReadsCovered(Get(j, "caps"), a.caps)
            && j.Obj? && Names(j) == ["v", "onion", "weight", "ts", "nonce"] + IfAny(Get(j, "caps"), "caps")
  {
    hide Present, PresentNames, Names, Print, Read, CapsJson, ReadsCaps, Canonical, HasCaps;
    KeysDistinct();
    var f := AnnounceFields(a);
    ReadPrint(Obj(Present(f)));
    GetPresent(ANNOUNCE_KEYS, f, 0);
    GetPresent(ANNOUNCE_KEYS, f, 1);
    GetPresent(ANNOUNCE_KEYS, f, 2);
    GetPresent(ANNOUNCE_KEYS, f, 3);
    GetPresent(ANNOUNCE_KEYS, f, 4);
    GetPresent(ANNOUNCE_KEYS, f, 5);
    NamesPresent(f);
    NamesOf6(f);
    if a.caps.Some? && HasCaps(a.caps.value) { CapsReads(Canonical(a.caps.value)); }
  }

  /** A capability record is its domain line and then the JSON of onion and capabilities. */
  lemma CapsRecordReadsBack(onion: string, caps: Caps) returns (text: string)
    ensures CapsBytes(onion, caps) == "Shade Tree gateway capabilities v1\n" + text && Read(text).Some?
    ensures var j := Read(text).value;
            && Get(j, "onion") == Some(Str(onion)) && Get(j, "caps").Some? && ReadsCaps(Get(j, "caps").value, Canonical(caps))
            && j.Obj? && Names(j) == ["onion", "caps"]
  {
    hide Present, PresentNames, Names, Print, Read, CapsJson, ReadsCaps, Canonical;
    KeysDistinct();
    var f := CapsRecordFields(onion, Canonical(caps));
    text := Print(Obj(Present(f)));
    ReadPrint(Obj(Present(f)));
    GetPresent(CAPS_RECORD_KEYS, f, 0);
    GetPresent(CAPS_RECORD_KEYS, f, 1);
    NamesPresent(f);
    NamesOf2(f);
    CapsReads(Canonical(caps));
  }

  /** A receipt is its domain line and then the JSON of its four fields. */
  lemma ReceiptReadsBack(r: Receipt) returns (text: string)
    ensures ReceiptBytes(r) == "Shade Tree egress success receipt v1\n" + text && Read(text).Some?
    ensures var j := Read(text).value;
            && Get(j, "v") == Some(Num(r.v)) && Get(j, "onion") == Some(Str(r.onion))
            && Get(j, "epoch") == Some(Str(r.epoch)) && Get(j, "ok") == Some(Bool(r.ok))
            && j.Obj? && Names(j) == ["v", "onion", "epoch", "ok"]
  {
    hide Present, PresentNames, Names, Print, Read;
    KeysDistinct();
    var f := ReceiptFields(r);
    text := Print(Obj(Present(f)));
    ReadPrint(Obj(Present(f)));
    GetPresent(RECEIPT_KEYS, f, 0);
    GetPresent(RECEIPT_KEYS, f, 1);
    GetPresent(RECEIPT_KEYS, f, 2);
    GetPresent(RECEIPT_KEYS, f, 3);
    NamesPresent(f);
    NamesOf4(f);
  }
}
