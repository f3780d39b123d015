/** Capability canonicalisation: raw, untrusted capabilities become one bounded normal form
    with a fixed field order, and everything invalid is dropped. */
module CapsCanon {
  import opened Common
  import opened Records
  import opened Sorting
  import J = Json

  datatype CanonicalPay = CanonicalPay(protocols: seq<string>, onion: Option<string>, port: nat, asset: string,
                                       chain: string, tiers: seq<(nat, string)>)

  datatype CanonicalRate = CanonicalRate(scope: string, window: string, epochSeconds: nat, previousEpochsAccepted: nat,
                                         rootFreshnessSeconds: nat, payloadBytesPerSlot: nat)

  datatype CanonicalCaps = CanonicalCaps(ports: Option<seq<nat>>, region: Option<string>, proto: Option<(nat, nat)>,
                                         artifacts: Option<seq<string>>, admits: Option<seq<string>>,
                                         pay: Option<CanonicalPay>, rate: Option<CanonicalRate>)

  const MAX_CAPS_ARTIFACTS: nat := 8
  const MAX_CAPS_PAY_TIERS: nat := 8
  const ADMIT_PATHS: seq<string> := ["invited", "staked", "paid"]
  const PAY_PROTOCOLS: seq<string> := ["x402", "mpp"]

  // ------------------------------------------------------------------------
  // Field grammars
  // ------------------------------------------------------------------------

  predicate LowerLetter(c: char) { 'a' <= c <= 'z' }

  predicate IsArtifactId(s: string) {
    && 1 <= |s| <= 64
    && (LowerLetter(s[0]) || J.IsDigit(s[0]))
    && forall i :: 1 <= i < |s| ==> LowerLetter(s[i]) || J.IsDigit(s[i]) || s[i] in {'.', '_', '-'}
  }

  predicate IsRegion(r: string) {
    r in {"na", "sa", "eu", "af", "as", "oc", "aq", "unknown"}
  }

  predicate IsHex(s: string) {
    |s| > 0 && forall i :: 0 <= i < |s| ==> J.IsDigit(s[i]) || 'a' <= s[i] <= 'f' || 'A' <= s[i] <= 'F'
  }

  /** Decimal digits without a leading zero, at most `max` of them. */
  predicate IsCanonicalUint(s: string, max: nat) {
    1 <= |s| <= max && (forall i :: 0 <= i < |s| ==> J.IsDigit(s[i])) && s[0] != '0'
  }

  predicate IsV3Onion(o: string) {
    && |o| == 62 && o[56..] == ".onion"
    && forall i :: 0 <= i < 56 ==> LowerLetter(o[i]) || '2' <= o[i] <= '7'
  }

  predicate IsAsset(a: string) { |a| == 42 && a[..2] == "0x" && IsHex(a[2..]) }

  predicate IsChain(c: string) { |c| >= 7 && c[..7] == "eip155:" && IsCanonicalUint(c[7..], 16) }

  // ------------------------------------------------------------------------
  // Orders
  // ------------------------------------------------------------------------

  predicate NatLess(a: nat, b: nat) { a < b }

  /** Byte order of strings. */
  predicate StrLess(a: string, b: string)
    decreases |a|
  {
    if |b| == 0 then false
    else if |a| == 0 then true
    else a[0] < b[0] || (a[0] == b[0] && StrLess(a[1..], b[1..]))
  }

  lemma {:induction false} StrLessAsymmetric(a: string, b: string)
    requires StrLess(a, b)
    ensures !StrLess(b, a)
    decreases |a|
  {
    if |a| > 0 && a[0] == b[0] { StrLessAsymmetric(a[1..], b[1..]); }
  }

  lemma {:induction false} StrLessConnected(a: string, b: string)
    requires a != b
    ensures StrLess(a, b) || StrLess(b, a)
    decreases |a|
  {
    if |a| > 0 && |b| > 0 && a[0] == b[0] {
      assert a == [a[0]] + a[1..] && b == [b[0]] + b[1..];
      StrLessConnected(a[1..], b[1..]);
    }
  }

  lemma {:induction false} StrLessTransitive(a: string, b: string, c: string)
    requires StrLess(a, b) && StrLess(b, c)
    ensures StrLess(a, c)
    decreases |a|
  {
    if |a| > 0 && a[0] == b[0] == c[0] { StrLessTransitive(a[1..], b[1..], c[1..]); }
  }

  lemma StrLessTotal()
    ensures StrictTotal(StrLess)
  {
    forall a, b | StrLess(a, b) ensures !StrLess(b, a) { StrLessAsymmetric(a, b); }
    forall a: string, b: string | a != b ensures StrLess(a, b) || StrLess(b, a) { StrLessConnected(a, b); }
    forall a, b, c | !StrLess(a, b) && !StrLess(b, c) ensures !StrLess(a, c) {
      if a == b || b == c {
      } else if StrLess(a, c) {
        StrLessConnected(a, b);
        StrLessTransitive(b, a, c);
        assert false;
      }
    }
  }

  lemma NatLessTotal()
    ensures StrictTotal(NatLess)
  {}

  // ------------------------------------------------------------------------
  // Canonical forms
  // ------------------------------------------------------------------------

  /** The valid ports of a list, as naturals. */
  function ValidPorts(ports: seq<int>): (r: seq<nat>)
    ensures forall p :: p in r <==> p in ports && 1 <= p <= 65535
  {
    if |ports| == 0 then []
    else (if 1 <= ports[0] <= 65535 then [ports[0]] else []) + ValidPorts(ports[1..])
  }

  function NonEmpty<T>(s: seq<T>): Option<seq<T>> { if |s| == 0 then None else Some(s) }

  function CanonPorts(ports: Option<seq<int>>): Option<seq<nat>> {
    if ports.None? then None else NonEmpty(SortDedup(ValidPorts(ports.value), NatLess))
  }

  function ValidArtifacts(list: seq<string>): (r: seq<string>)
    ensures forall a :: a in r <==> a in list && IsArtifactId(a)
  {
    if |list| == 0 then []
    else (if IsArtifactId(list[0]) then [list[0]] else []) + ValidArtifacts(list[1..])
  }

  function CanonArtifacts(list: Option<seq<string>>): Option<seq<string>> {
    if list.None? then None
    else
      var v := SortDedup(ValidArtifacts(list.value), StrLess);
      if 1 <= |v| <= MAX_CAPS_ARTIFACTS then Some(v) else None
  }

  predicate Mentions(list: seq<string>, name: string) {
    exists i :: 0 <= i < |list| && Lower(list[i]) == name
  }

  /** The names of `order` that the list mentions in any case, in that order. */
  function InOrder(order: seq<string>, list: seq<string>): (r: seq<string>)
    ensures forall p :: p in r <==> p in order && Mentions(list, p)
  {
    if |order| == 0 then []
    else (if Mentions(list, order[0]) then [order[0]] else []) + InOrder(order[1..], list)
  }

  function CanonAdmits(list: Option<seq<string>>): Option<seq<string>> {
    if list.None? then None else NonEmpty(InOrder(ADMIT_PATHS, list.value))
  }

  /** The limit a tier key stands for, when key and price are well formed. */
  function TierLimit(t: (string, string)): Option<nat> {
    if IsCanonicalUint(t.0, 5) && 1 <= J.DecValue(t.0) <= 65535 && IsCanonicalUint(t.1, 40)
    then Some(J.DecValue(t.0)) else None
  }

  predicate HasLimit(tiers: seq<(nat, string)>, limit: nat) {
    exists i :: 0 <= i < |tiers| && tiers[i].0 == limit
  }

  /** The well-formed tiers; the first of each limit wins. */
  function KeepTiers(raw: seq<(string, string)>): seq<(nat, string)>
    decreases |raw|
  {
    if |raw| == 0 then []
    else
      var kept := KeepTiers(raw[..|raw| - 1]);
      var t := raw[|raw| - 1];
      var limit := TierLimit(t);
      if limit.None? || HasLimit(kept, limit.value) then kept else kept + [(limit.value, t.1)]
  }

  /** The tier loop of `canonical_pay`. */
  method CollectTiers(raw: seq<(string, string)>) returns (tiers: seq<(nat, string)>)
    ensures tiers == KeepTiers(raw)
  {
    tiers := [];
    for i := 0 to |raw|
      invariant tiers == KeepTiers(raw[..i])
    {
      assert raw[..i + 1][..i] == raw[..i] && raw[..i + 1][i] == raw[i];
      var limit := TierLimit(raw[i]);
      if limit.Some? && !HasLimit(tiers, limit.value) {
        tiers := tiers + [(limit.value, raw[i].1)];
      }
    }
    assert raw[..|raw|] == raw;
  }

  predicate TierLess(a: (nat, string), b: (nat, string)) { a.0 < b.0 }

  function CanonTiers(raw: Option<seq<(string, string)>>): seq<(nat, string)> {
    SortBy(if raw.None? then [] else KeepTiers(raw.value), TierLess)
  }

  function CanonPay(pay: PayCaps): Option<CanonicalPay> {
    var protocols := InOrder(PAY_PROTOCOLS, if pay.protocols.None? then [] else pay.protocols.value);
    var onion := if pay.onion.Some? && IsV3Onion(Lower(pay.onion.value)) then Some(Lower(pay.onion.value)) else None;
    var tiers := CanonTiers(pay.tiers);
    if |protocols| == 0 || pay.port.None? || !(1 <= pay.port.value <= 65535) || pay.asset.None? || !IsAsset(pay.asset.value)
       || pay.chain.None? || !IsChain(pay.chain.value) || !(1 <= |tiers| <= MAX_CAPS_PAY_TIERS)
    then None
    else Some(CanonicalPay(protocols, onion, pay.port.value, Lower(pay.asset.value), pay.chain.value, tiers))
  }

  function CanonRate(rate: RateCaps): Option<CanonicalRate> {
    if rate.scope != "grove-v4" || rate.window != "fixed" || !(1 <= rate.epochSeconds <= 86400)
       || !(0 <= rate.previousEpochsAccepted <= 16) || !(1 <= rate.rootFreshnessSeconds <= 86400)
       || rate.payloadBytesPerSlot <= 0
    then None
    else Some(CanonicalRate(rate.scope, rate.window, rate.epochSeconds, rate.previousEpochsAccepted,
                            rate.rootFreshnessSeconds, rate.payloadBytesPerSlot))
  }

  function Canonical(c: Caps): CanonicalCaps {
    CanonicalCaps(
      CanonPorts(c.ports),
      if c.region.Some? && IsRegion(c.region.value) then c.region else None,
      if c.proto.Some? && c.proto.value.min >= 1 && c.proto.value.max >= c.proto.value.min
      then Some((c.proto.value.min, c.proto.value.max)) else None,
      CanonArtifacts(c.artifacts),
      CanonAdmits(c.admits),
      if c.pay.None? then None else CanonPay(c.pay.value),
      if c.rate.None? then None else CanonRate(c.rate.value))
  }

  predicate HasCaps(c: Caps) { Canonical(c) != CanonicalCaps(None, None, None, None, None, None, None) }

  // ------------------------------------------------------------------------
  // Idempotence
  // ------------------------------------------------------------------------

  /** A canonical form carried again as raw capabilities. */
  function EmbedPay(p: CanonicalPay): PayCaps {
    PayCaps(Some(p.protocols), p.onion, Some(p.port), Some(p.asset), Some(p.chain), Some(EmbedTiers(p.tiers)))
  }

  function EmbedTiers(tiers: seq<(nat, string)>): (r: seq<(string, string)>)
    ensures |r| == |tiers| && forall i :: 0 <= i < |tiers| ==> r[i] == (J.Dec(tiers[i].0), tiers[i].1)
  {
    seq(|tiers|, i requires 0 <= i < |tiers| => (J.Dec(tiers[i].0), tiers[i].1))
  }

  function EmbedRate(r: CanonicalRate): RateCaps {
    RateCaps(r.scope, r.window, r.epochSeconds, r.previousEpochsAccepted, r.rootFreshnessSeconds, r.payloadBytesPerSlot)
  }

  function Embed(cc: CanonicalCaps): Caps {
    Caps(
      if cc.ports.None? then None else Some(cc.ports.value),
      cc.region,
      if cc.proto.None? then None else Some(ProtoCaps(cc.proto.value.0, cc.proto.value.1)),
      cc.artifacts,
      cc.admits,
      if cc.pay.None? then None else Some(EmbedPay(cc.pay.value)),
      if cc.rate.None? then None else Some(EmbedRate(cc.rate.value)))
  }

  lemma {:induction false} ValidPortsFixed(v: seq<nat>)
    requires forall i :: 0 <= i < |v| ==> 1 <= v[i] <= 65535
    ensures ValidPorts(v) == v
    decreases |v|
  {
    if |v| > 0 {
      assert v == [v[0]] + v[1..];
      ValidPortsFixed(v[1..]);
    }
  }

  lemma PortsIdempotent(ports: Option<seq<int>>)
    ensures var c := CanonPorts(ports); CanonPorts(if c.None? then None else Some(c.value)) == c
  {
    if ports.Some? {
      var v := SortDedup(ValidPorts(ports.value), NatLess);
      NatLessTotal();
      SortDedupStrict(ValidPorts(ports.value), NatLess);
      forall i | 0 <= i < |v| ensures 1 <= v[i] <= 65535 { assert v[i] in v; }
      ValidPortsFixed(v);
      SortDedupFixed(v, NatLess);
    }
  }

  lemma {:induction false} ValidArtifactsFixed(v: seq<string>)
    requires forall a :: a in v ==> IsArtifactId(a)
    ensures ValidArtifacts(v) == v
    decreases |v|
  {
    hide IsArtifactId;
    if |v| > 0 {
      assert v[0] in v && v == [v[0]] + v[1..];
      ValidArtifactsFixed(v[1..]);
    }
  }

  lemma ArtifactsIdempotent(list: Option<seq<string>>)
    ensures var c := CanonArtifacts(list); CanonArtifacts(c) == c
  {
    hide IsArtifactId, StrLess;
    if list.Some? {
      var v := SortDedup(ValidArtifacts(list.value), StrLess);
      StrLessTotal();
      SortDedupStrict(ValidArtifacts(list.value), StrLess);
      ValidArtifactsFixed(v);
      SortDedupFixed(v, StrLess);
    }
  }

  ghost predicate AllLower(order: seq<string>) {
    forall p :: p in order ==> Lower(p) == p
  }

  lemma NamesAreLower()
    ensures AllLower(ADMIT_PATHS) && AllLower(PAY_PROTOCOLS)
  {}

  lemma {:induction false} InOrderAgrees(order: seq<string>, a: seq<string>, b: seq<string>)
    requires forall p :: p in order ==> (Mentions(a, p) <==> Mentions(b, p))
    ensures InOrder(order, a) == InOrder(order, b)
    decreases |order|
  {
    hide Mentions;
    if |order| > 0 {
      assert order[0] in order;
      InOrderAgrees(order[1..], a, b);
    }
  }

  lemma InOrderIdempotent(order: seq<string>, list: seq<string>)
    requires AllLower(order)
    ensures InOrder(order, InOrder(order, list)) == InOrder(order, list)
  {
    var r := InOrder(order, list);
    forall p | p in order ensures Mentions(r, p) <==> Mentions(list, p) {
      if Mentions(list, p) {
        assert p in r;
        var i :| 0 <= i < |r| && r[i] == p;
        assert Lower(r[i]) == p;
      }
      if Mentions(r, p) {
        var i :| 0 <= i < |r| && Lower(r[i]) == p;
        assert r[i] in r && r[i] in order;
      }
    }
    InOrderAgrees(order, r, list);
  }

  lemma {:induction false} DecIsCanonical(n: nat)
    requires 1 <= n <= 65535
    ensures IsCanonicalUint(J.Dec(n), 5) && J.DecValue(J.Dec(n)) == n
  {
    J.DecRoundTrip(n);
    J.DecLeads(n);
    DecLength(n, 5);
    assert 10 * 10 * 10 * 10 * 10 == 100000;
  }

  function TenTo(k: nat): nat { if k == 0 then 1 else 10 * TenTo(k - 1) }

  lemma {:induction false} DecLength(n: nat, k: nat)
    requires k > 0 && n < TenTo(k)
    ensures |J.Dec(n)| <= k
  {
    if n >= 10 {
      assert k > 1;
      DecLength(n / 10, k - 1);
    }
  }

  /** The kept tiers have distinct limits in range and well-formed prices. */
  ghost predicate GoodTiers(tiers: seq<(nat, string)>) {
    && (forall i :: 0 <= i < |tiers| ==> 1 <= tiers[i].0 <= 65535 && IsCanonicalUint(tiers[i].1, 40))
    && (forall i, j :: 0 <= i < |tiers| && 0 <= j < |tiers| && tiers[i].0 == tiers[j].0 ==> i == j)
  }

  lemma {:induction false} KeepTiersGood(raw: seq<(string, string)>)
    ensures GoodTiers(KeepTiers(raw))
    decreases |raw|
  {
    hide IsCanonicalUint;
    if |raw| > 0 { KeepTiersGood(raw[..|raw| - 1]); }
  }

  lemma {:induction false} EmbeddedTiersKept(tiers: seq<(nat, string)>)
    requires GoodTiers(tiers)
    ensures KeepTiers(EmbedTiers(tiers)) == tiers
    decreases |tiers|
  {
    if |tiers| > 0 {
      var n := |tiers| - 1;
      var raw := EmbedTiers(tiers);
      EmbeddedTiersKept(tiers[..n]);
      assert raw[..n] == EmbedTiers(tiers[..n]);
      DecIsCanonical(tiers[n].0);
      assert TierLimit(raw[n]) == Some(tiers[n].0);
      hide IsCanonicalUint, TierLimit;
      assert !HasLimit(tiers[..n], tiers[n].0);
      assert tiers == tiers[..n] + [(tiers[n].0, tiers[n].1)];
    }
  }

  lemma TierLessWeak()
    ensures StrictWeak(TierLess) && Asymmetric(TierLess)
  {}

  /** Sorting good tiers gives good tiers, strictly ordered by limit. */
  lemma SortedTiersGood(tiers: seq<(nat, string)>)
    requires GoodTiers(tiers)
    ensures GoodTiers(SortBy(tiers, TierLess)) && StrictlySorted(SortBy(tiers, TierLess), TierLess)
    ensures SameElements(SortBy(tiers, TierLess), tiers)
  {
    hide IsCanonicalUint;
    var r := SortBy(tiers, TierLess);
    TierLessWeak();
    SortPermutes(tiers, TierLess);
    SortSorts(tiers, TierLess);
    PermutationDistinct(tiers, r);
    forall i, j | 0 <= i < |r| && 0 <= j < |r| && r[i].0 == r[j].0 ensures i == j {
      SameLimitSameTier(tiers, r[i], r[j]);
    }
    forall i | 0 <= i < |r| ensures 1 <= r[i].0 <= 65535 && IsCanonicalUint(r[i].1, 40) {
      assert r[i] in tiers;
    }
  }

  lemma SameLimitSameTier(tiers: seq<(nat, string)>, a: (nat, string), b: (nat, string))
    requires GoodTiers(tiers) && a in tiers && b in tiers && a.0 == b.0
    ensures a == b
  {}

  lemma TiersIdempotent(raw: Option<seq<(string, string)>>)
    ensures CanonTiers(Some(EmbedTiers(CanonTiers(raw)))) == CanonTiers(raw)
  {
    hide IsCanonicalUint;
    var kept := if raw.None? then [] else KeepTiers(raw.value);
    if raw.Some? { KeepTiersGood(raw.value); }
    SortedTiersGood(kept);
    var r := SortBy(kept, TierLess);
    EmbeddedTiersKept(r);
    SortedTiersGood(r);
    TierLessWeak();
    StrictUnique(SortBy(r, TierLess), r, TierLess);
  }

  lemma AssetFixed(a: string)
    requires IsAsset(a)
    ensures IsAsset(Lower(a)) && Lower(Lower(a)) == Lower(a)
  {}

  lemma LowerTwice(s: string)
    ensures Lower(Lower(s)) == Lower(s)
  {}

  lemma PayIdempotent(pay: PayCaps)
    ensures var c := CanonPay(pay); c.Some? ==> CanonPay(EmbedPay(c.value)) == c
  {
    hide IsCanonicalUint, IsV3Onion, IsAsset, IsChain, CanonTiers, InOrder, EmbedTiers;
    var c := CanonPay(pay);
    if c.Some? {
      NamesAreLower();
      InOrderIdempotent(PAY_PROTOCOLS, if pay.protocols.None? then [] else pay.protocols.value);
      TiersIdempotent(pay.tiers);
      AssetFixed(pay.asset.value);
      if pay.onion.Some? { LowerTwice(pay.onion.value); }
    }
  }

  /** Canonicalising a canonical form again changes nothing. */
  lemma CanonicalIsIdempotent(c: Caps)
    ensures Canonical(Embed(Canonical(c))) == Canonical(c)
  {
    hide CanonPorts, CanonArtifacts, InOrder, CanonPay, IsRegion;
    PortsIdempotent(c.ports);
    ArtifactsIdempotent(c.artifacts);
    NamesAreLower();
    if c.admits.Some? { InOrderIdempotent(ADMIT_PATHS, c.admits.value); }
    if c.pay.Some? { PayIdempotent(c.pay.value); }
  }

  // ------------------------------------------------------------------------
  // Insensitivity to order and repetition
  // ------------------------------------------------------------------------

  ghost predicate SameList<T>(a: Option<seq<T>>, b: Option<seq<T>>) {
    || (a.None? && b.None?)
    || (a.Some? && b.Some? && SameElements(a.value, b.value))
  }

  /** No two well-formed tiers share a limit. */
  ghost predicate DistinctLimits(raw: seq<(string, string)>) {
    forall i, j :: 0 <= i < |raw| && 0 <= j < |raw| && TierLimit(raw[i]).Some? && TierLimit(raw[i]) == TierLimit(raw[j]) ==> i == j
  }

  ghost predicate SameTiers(a: Option<seq<(string, string)>>, b: Option<seq<(string, string)>>) {
    && SameList(a, b)
    && (a.Some? && b.Some? ==> DistinctLimits(a.value) && DistinctLimits(b.value))
  }

  ghost predicate SamePay(a: Option<PayCaps>, b: Option<PayCaps>) {
    || (a.None? && b.None?)
    || (a.Some? && b.Some?
        && SameList(a.value.protocols, b.value.protocols) && SameTiers(a.value.tiers, b.value.tiers)
        && a.value.onion == b.value.onion && a.value.port == b.value.port
        && a.value.asset == b.value.asset && a.value.chain == b.value.chain)
  }

  /** The same capabilities up to order and repetition of ports, artifacts, admission paths
      and payment protocols, and up to the order of tiers with distinct limits. */
  ghost predicate Variants(a: Caps, b: Caps) {
    && SameList(a.ports, b.ports) && SameList(a.artifacts, b.artifacts) && SameList(a.admits, b.admits)
    && SamePay(a.pay, b.pay)
    && a.region == b.region && a.proto == b.proto && a.rate == b.rate
  }

  lemma SameNames(order: seq<string>, a: seq<string>, b: seq<string>)
    requires SameElements(a, b)
    ensures InOrder(order, a) == InOrder(order, b)
  {
    forall p | p in order ensures Mentions(a, p) <==> Mentions(b, p) {
      if Mentions(a, p) {
        var i :| 0 <= i < |a| && Lower(a[i]) == p;
        assert a[i] in b;
        var j :| 0 <= j < |b| && b[j] == a[i];
      }
      if Mentions(b, p) {
        var i :| 0 <= i < |b| && Lower(b[i]) == p;
        assert b[i] in a;
        var j :| 0 <= j < |a| && a[j] == b[i];
      }
    }
    InOrderAgrees(order, a, b);
  }

  /** `x` is the value of some well-formed tier. */
  ghost predicate FromTier(raw: seq<(string, string)>, x: (nat, string)) {
    exists i :: 0 <= i < |raw| && TierLimit(raw[i]) == Some(x.0) && raw[i].1 == x.1
  }

  lemma {:induction false} KeptFrom(raw: seq<(string, string)>, x: (nat, string))
    requires DistinctLimits(raw)
    ensures x in KeepTiers(raw) <==> FromTier(raw, x)
    decreases |raw|
  {
    hide TierLimit;
    if |raw| > 0 {
      var n := |raw| - 1;
      var front, t := raw[..n], raw[n];
      KeptFrom(front, x);
      assert FromTier(front, x) ==> FromTier(raw, x);
      if TierLimit(t).Some? {
        LimitIsNew(raw);
        if x == (TierLimit(t).value, t.1) { assert TierLimit(raw[n]) == Some(x.0) && raw[n].1 == x.1; }
      }
      if FromTier(raw, x) {
        var i :| 0 <= i < |raw| && TierLimit(raw[i]) == Some(x.0) && raw[i].1 == x.1;
        if i < n { assert front[i] == raw[i]; } else { assert x == (TierLimit(t).value, t.1); }
      }
    }
  }

  lemma {:induction false} LimitIsNew(raw: seq<(string, string)>)
    requires |raw| > 0 && DistinctLimits(raw) && TierLimit(raw[|raw| - 1]).Some?
    ensures !HasLimit(KeepTiers(raw[..|raw| - 1]), TierLimit(raw[|raw| - 1]).value)
  {
    hide TierLimit;
    var n := |raw| - 1;
    var kept, limit := KeepTiers(raw[..n]), TierLimit(raw[n]).value;
    forall i | 0 <= i < |kept| ensures kept[i].0 != limit {
      KeptHasSource(raw[..n], kept[i]);
      var j :| 0 <= j < n && TierLimit(raw[..n][j]) == Some(kept[i].0);
      assert TierLimit(raw[j]) == Some(kept[i].0);
    }
  }

  lemma {:induction false} KeptHasSource(raw: seq<(string, string)>, x: (nat, string))
    requires x in KeepTiers(raw)
    ensures exists j :: 0 <= j < |raw| && TierLimit(raw[j]) == Some(x.0)
    decreases |raw|
  {
    hide TierLimit;
    var n := |raw| - 1;
    if x in KeepTiers(raw[..n]) {
      KeptHasSource(raw[..n], x);
      var j :| 0 <= j < n && TierLimit(raw[..n][j]) == Some(x.0);
      assert TierLimit(raw[j]) == Some(x.0);
    } else {
      assert TierLimit(raw[n]) == Some(x.0);
    }
  }

  lemma TiersForgetOrder(a: Option<seq<(string, string)>>, b: Option<seq<(string, string)>>)
    requires SameTiers(a, b)
    ensures CanonTiers(a) == CanonTiers(b)
  {
    hide TierLimit, IsCanonicalUint;
    if a.Some? {
      var ka, kb := KeepTiers(a.value), KeepTiers(b.value);
      SameKept(a.value, b.value);
      KeepTiersGood(a.value);
      KeepTiersGood(b.value);
      hide GoodTiers, KeepTiers, StrictlySorted;
      SortedTiersGood(ka);
      SortedTiersGood(kb);
      TierLessWeak();
      StrictUnique(CanonTiers(a), CanonTiers(b), TierLess);
    }
  }

  lemma SameKept(a: seq<(string, string)>, b: seq<(string, string)>)
    requires SameElements(a, b) && DistinctLimits(a) && DistinctLimits(b)
    ensures SameElements(KeepTiers(a), KeepTiers(b))
  {
    hide TierLimit, KeepTiers, FromTier, DistinctLimits;
    forall x ensures x in KeepTiers(a) <==> x in KeepTiers(b) {
      KeptFrom(a, x);
      KeptFrom(b, x);
      if FromTier(a, x) { SameSources(a, b, x); }
      if FromTier(b, x) { SameSources(b, a, x); }
    }
  }

  lemma SameSources(a: seq<(string, string)>, b: seq<(string, string)>, x: (nat, string))
    requires SameElements(a, b) && FromTier(a, x)
    ensures FromTier(b, x)
  {
    hide TierLimit;
    var i :| 0 <= i < |a| && TierLimit(a[i]) == Some(x.0) && a[i].1 == x.1;
    assert a[i] in b;
    var j :| 0 <= j < |b| && b[j] == a[i];
  }

  lemma PayForgetsOrder(a: PayCaps, b: PayCaps)
    requires SamePay(Some(a), Some(b))
    ensures CanonPay(a) == CanonPay(b)
  {
    hide InOrder, CanonTiers, IsV3Onion, IsAsset, IsChain;
    TiersForgetOrder(a.tiers, b.tiers);
    if a.protocols.Some? { SameNames(PAY_PROTOCOLS, a.protocols.value, b.protocols.value); }
  }

  /** All such variants have one canonical form, so they sign identical bytes. */
  lemma VariantsCanonicaliseAlike(a: Caps, b: Caps)
    requires Variants(a, b)
    ensures Canonical(a) == Canonical(b)
  {
    hide InOrder, CanonPay, SortDedup, IsRegion;
    if a.ports.Some? {
      NatLessTotal();
      SortDedupForgets(ValidPorts(a.ports.value), ValidPorts(b.ports.value), NatLess);
    }
    if a.artifacts.Some? {
      StrLessTotal();
      SortDedupForgets(ValidArtifacts(a.artifacts.value), ValidArtifacts(b.artifacts.value), StrLess);
    }
    if a.admits.Some? { SameNames(ADMIT_PATHS, a.admits.value, b.admits.value); }
    if a.pay.Some? { PayForgetsOrder(a.pay.value, b.pay.value); }
  }
}
