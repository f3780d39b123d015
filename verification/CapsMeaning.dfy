/** What canonicalisation keeps: each capability is present exactly when its grammar holds, and
    its value is the one advertised, put in order. */
module CapsMeaning {
  import opened Common
  import opened Records
  import opened Sorting
  import opened CapsCanon
  import opened Onion
  import J = Json

  // ------------------------------------------------------------------------
  // Orders
  // ------------------------------------------------------------------------

  /** At the first place where they differ `a` has the smaller character, or it has ended. */
  ghost predicate FirstSmaller(a: string, b: string, k: nat) {
    k <= |a| && k < |b| && a[..k] == b[..k] && (k == |a| || a[k] < b[k])
  }

  ghost predicate Lexical(a: string, b: string) { exists k: nat :: FirstSmaller(a, b, k) }

  lemma SharedStart(a: string, b: string, k: nat)
    requires FirstSmaller(a, b, k)
    ensures k == 0 || (|a| > 0 && |b| > 0 && a[0] == b[0])
  {
    if k > 0 { assert a[0] == a[..k][0] && b[0] == b[..k][0]; }
  }

  /** Strings are ordered character by character, a prefix before what continues it. */
  lemma {:induction false} StrLessIff(a: string, b: string)
    ensures StrLess(a, b) <==> Lexical(a, b)
    decreases |a|
  {
    if |a| == 0 || |b| == 0 || a[0] != b[0] {
      if StrLess(a, b) { assert FirstSmaller(a, b, 0); }
      forall k: nat | FirstSmaller(a, b, k) ensures StrLess(a, b) { SharedStart(a, b, k); }
    } else {
      StrLessIff(a[1..], b[1..]);
      if StrLess(a, b) {
        var k: nat :| FirstSmaller(a[1..], b[1..], k);
        assert a[..k + 1] == [a[0]] + a[1..][..k] && b[..k + 1] == [b[0]] + b[1..][..k];
        assert FirstSmaller(a, b, k + 1);
      }
      forall k: nat | FirstSmaller(a, b, k) ensures StrLess(a, b) {
        assert k > 0;
        assert a[1..][..k - 1] == a[..k][1..] && b[1..][..k - 1] == b[..k][1..];
        assert FirstSmaller(a[1..], b[1..], k - 1);
      }
    }
  }

  // ------------------------------------------------------------------------
  // Grammars
  // ------------------------------------------------------------------------

  lemma {:induction false} DecOfValue(s: string)
    requires |s| > 0 && s[0] != '0' && forall i :: 0 <= i < |s| ==> J.IsDigit(s[i])
    ensures J.DecValue(s) > 0 && J.Dec(J.DecValue(s)) == s && J.DecValue(s) < TenTo(|s|)
    decreases |s|
  {
    var n := |s| - 1;
    assert s == s[..n] + [s[n]] && J.IsDigit(s[n]);
    if n == 0 {
      assert J.DecValue(s[..0]) == 0;
    } else {
      DecOfValue(s[..n]);
    }
  }

  lemma {:induction false} TenToGrows(a: nat, b: nat)
    requires a <= b
    ensures TenTo(a) <= TenTo(b)
    decreases b
  {
    if a < b { TenToGrows(a, b - 1); }
  }

  /** A canonical decimal is the decimal text of a positive number below a power of ten. */
  lemma UintIff(s: string, max: nat)
    ensures IsCanonicalUint(s, max) <==> exists n :: 0 < n < TenTo(max) && s == J.Dec(n)
  {
    if IsCanonicalUint(s, max) {
      DecOfValue(s);
      TenToGrows(|s|, max);
    }
    forall n | 0 < n < TenTo(max) && s == J.Dec(n) ensures IsCanonicalUint(s, max) {
      J.DecLeads(n);
      if max > 0 { DecLength(n, max); }
    }
  }

  /** A tier counts when its key is the decimal text of a limit from 1 to 65535 and its price a
      positive number of at most 40 digits. */
  lemma TierLimitIff(t: (string, string), limit: nat)
    ensures TierLimit(t) == Some(limit) <==> t.0 == J.Dec(limit) && 1 <= limit <= 65535 && IsCanonicalUint(t.1, 40)
  {
    if IsCanonicalUint(t.0, 5) { DecOfValue(t.0); }
    if 1 <= limit <= 65535 { DecIsCanonical(limit); }
  }

  /** An asset is `0x` and forty hexadecimal digits; a chain is `eip155:` and a positive number
      of at most 16 digits; an address is 56 base32 symbols and the suffix. */
  lemma PayGrammars(s: string)
    ensures IsAsset(s) <==> |s| == 42 && "0x" <= s && forall i :: 2 <= i < 42 ==> J.HexValue(s[i]).Some?
    ensures IsChain(s) <==> "eip155:" <= s && exists n :: 0 < n < TenTo(16) && s[7..] == J.Dec(n)
    ensures IsV3Onion(s) <==> |s| == 62 && s[56..] == ".onion" && forall i :: 0 <= i < 56 ==> s[i] in ALPHABET
  {
    if |s| >= 7 { UintIff(s[7..], 16); }
    hide IsCanonicalUint;
    assert "eip155:" <= s <==> |s| >= 7 && s[..7] == "eip155:";
    assert "0x" <= s <==> |s| >= 2 && s[..2] == "0x";
    if |s| == 42 { assert forall i :: 2 <= i < 42 ==> s[i] == s[2..][i - 2]; }
    if |s| == 62 {
      forall i | 0 <= i < 56 ensures s[i] in ALPHABET <==> LowerLetter(s[i]) || '2' <= s[i] <= '7' {
        SymbolsAreTheAlphabet(0, s[i]);
      }
    }
  }

  // ------------------------------------------------------------------------
  // Lists
  // ------------------------------------------------------------------------

  /** The valid ports, each once, ascending; absent when there is none. */
  lemma PortsKept(ports: Option<seq<int>>)
    ensures CanonPorts(ports).Some? <==> ports.Some? && exists p :: p in ports.value && 1 <= p <= 65535
    ensures CanonPorts(ports).Some? ==>
              var v := CanonPorts(ports).value;
              && (forall p: nat :: p in v <==> p in ports.value && 1 <= p <= 65535)
              && (forall i, j :: 0 <= i < j < |v| ==> v[i] < v[j])
  {
    if ports.Some? {
      var valid := ValidPorts(ports.value);
      var v := SortDedup(valid, NatLess);
      NatLessTotal();
      SortDedupStrict(valid, NatLess);
      if |v| > 0 { assert v[0] in v && v[0] in valid; }
      if p :| p in ports.value && 1 <= p <= 65535 { assert p in valid && p in v; }
    }
  }

  /** The valid artifact ids, each once, in byte order; absent when there are none or more
      than eight. */
  lemma ArtifactsKept(list: Option<seq<string>>)
    ensures CanonArtifacts(list).Some? <==> list.Some? && 1 <= |set a | a in list.value && IsArtifactId(a)| <= 8
    ensures CanonArtifacts(list).Some? ==>
              var v := CanonArtifacts(list).value;
              && (forall a :: a in v <==> a in list.value && IsArtifactId(a))
              && (forall i, j :: 0 <= i < j < |v| ==> Lexical(v[i], v[j]))
  {
    hide IsArtifactId, StrLess, Lexical;
    if list.Some? {
      var valid := ValidArtifacts(list.value);
      var v := SortDedup(valid, StrLess);
      StrLessTotal();
      SortDedupStrict(valid, StrLess);
      StrictHasNoRepeat(v);
      CountElements(v);
      assert SeqToSet(v) == set a | a in list.value && IsArtifactId(a);
      forall i, j | 0 <= i < j < |v| ensures Lexical(v[i], v[j]) { StrLessIff(v[i], v[j]); }
    }
  }

  lemma StrictHasNoRepeat(v: seq<string>)
    requires StrictlySorted(v, StrLess)
    ensures Distinct(v)
  {
    hide StrLess;
    forall i, j | 0 <= i < j < |v| ensures v[i] != v[j] {
      if v[i] == v[j] {
        StrLessAsymmetric(v[i], v[j]);
        assert false;
      }
    }
  }

  lemma {:induction false} CountElements(s: seq<string>)
    requires Distinct(s)
    ensures |SeqToSet(s)| == |s|
    decreases |s|
  {
    if |s| > 0 {
      var front, last := s[..|s| - 1], s[|s| - 1];
      CountElements(front);
      assert SeqToSet(s) == SeqToSet(front) + {last};
    } else {
      assert SeqToSet(s) == {};
    }
  }

  function If(c: bool, name: string): seq<string> { if c then [name] else [] }

  /** The admission paths mentioned in any case, in their fixed order. */
  lemma AdmitsKept(list: seq<string>)
    ensures InOrder(ADMIT_PATHS, list)
         == If(Mentions(list, "invited"), "invited") + If(Mentions(list, "staked"), "staked") + If(Mentions(list, "paid"), "paid")
  {
    hide Mentions;
    assert ADMIT_PATHS[1..] == ["staked", "paid"] && ["staked", "paid"][1..] == ["paid"] && ["paid"][1..] == [];
    assert InOrder([], list) == [];
    assert InOrder(["paid"], list) == If(Mentions(list, "paid"), "paid");
    assert InOrder(["staked", "paid"], list) == If(Mentions(list, "staked"), "staked") + If(Mentions(list, "paid"), "paid");
  }

  lemma ProtocolsKept(list: seq<string>)
    ensures InOrder(PAY_PROTOCOLS, list) == If(Mentions(list, "x402"), "x402") + If(Mentions(list, "mpp"), "mpp")
  {
    hide Mentions;
    assert PAY_PROTOCOLS[1..] == ["mpp"] && ["mpp"][1..] == [];
    assert InOrder([], list) == [];
    assert InOrder(["mpp"], list) == If(Mentions(list, "mpp"), "mpp");
  }

  // ------------------------------------------------------------------------
  // Tiers
  // ------------------------------------------------------------------------

  /** Entry `i` is the first well-formed one for its limit. */
  ghost predicate FirstFor(raw: seq<(string, string)>, i: nat, limit: nat) {
    i < |raw| && TierLimit(raw[i]) == Some(limit) && forall j :: 0 <= j < i ==> TierLimit(raw[j]) != Some(limit)
  }

  /** Some entry is the first well-formed one for the limit of `x`, and carries its price. */
  ghost predicate FirstPrice(raw: seq<(string, string)>, x: (nat, string)) {
    exists i: nat :: FirstFor(raw, i, x.0) && raw[i].1 == x.1
  }

  ghost predicate Priced(raw: seq<(string, string)>, limit: nat) { exists i: nat :: FirstFor(raw, i, limit) }

  /** Each limit with the price of its first well-formed entry, ascending by limit. */
  lemma TiersKept(raw: seq<(string, string)>, x: (nat, string))
    ensures x in CanonTiers(Some(raw)) <==> FirstPrice(raw, x)
    ensures var t := CanonTiers(Some(raw)); forall i, j :: 0 <= i < j < |t| ==> t[i].0 < t[j].0
  {
    hide TierLimit, FirstPrice;
    KeptIff(raw, x);
    KeepTiersGood(raw);
    SortedTiersGood(KeepTiers(raw));
  }

  lemma {:induction false} KeptIff(raw: seq<(string, string)>, x: (nat, string))
    ensures x in KeepTiers(raw) <==> FirstPrice(raw, x)
    ensures HasLimit(KeepTiers(raw), x.0) <==> Priced(raw, x.0)
    decreases |raw|
  {
    hide TierLimit, FirstPrice, Priced, HasLimit;
    if |raw| == 0 {
      NothingPriced(x);
    } else {
      var n := |raw| - 1;
      var kept, t := KeepTiers(raw[..n]), raw[n];
      KeptIff(raw[..n], x);
      PriceOfLast(raw, x);
      if TierLimit(t).Some? {
        LimitsAppend(kept, (TierLimit(t).value, t.1), x.0);
        if TierLimit(t).value != x.0 { assert x != (TierLimit(t).value, t.1); }
      }
    }
  }

  lemma NothingPriced(x: (nat, string))
    ensures !FirstPrice([], x) && !Priced([], x.0) && !HasLimit([], x.0)
  {}

  lemma LimitsAppend(kept: seq<(nat, string)>, one: (nat, string), limit: nat)
    ensures HasLimit(kept + [one], limit) <==> HasLimit(kept, limit) || one.0 == limit
  {
    if HasLimit(kept, limit) {
      var i :| 0 <= i < |kept| && kept[i].0 == limit;
      assert (kept + [one])[i].0 == limit;
    }
    assert (kept + [one])[|kept|] == one;
  }

  /** One more entry: it counts when it is well formed and no earlier one has its limit. */
  lemma PriceOfLast(raw: seq<(string, string)>, x: (nat, string))
    requires |raw| > 0
    ensures var n := |raw| - 1; var isNew := TierLimit(raw[n]) == Some(x.0) && !Priced(raw[..n], x.0);
            && (FirstPrice(raw, x) <==> FirstPrice(raw[..n], x) || (isNew && raw[n].1 == x.1))
            && (Priced(raw, x.0) <==> Priced(raw[..n], x.0) || isNew)
  {
    hide TierLimit;
    var n := |raw| - 1;
    forall i: nat | i < n ensures FirstFor(raw[..n], i, x.0) <==> FirstFor(raw, i, x.0) {
      assert forall j :: 0 <= j <= i ==> raw[..n][j] == raw[j];
    }
    if TierLimit(raw[n]) == Some(x.0) && !FirstFor(raw, n, x.0) {
      var j :| 0 <= j < n && TierLimit(raw[j]) == Some(x.0);
      var i := Earliest(raw, j, x.0);
      assert FirstFor(raw[..n], i, x.0);
    }
    if FirstFor(raw, n, x.0) {
      forall i: nat ensures !FirstFor(raw[..n], i, x.0) {}
    }
  }

  lemma {:induction false} Earliest(raw: seq<(string, string)>, j: nat, limit: nat) returns (i: nat)
    requires j < |raw| && TierLimit(raw[j]) == Some(limit)
    ensures i <= j && FirstFor(raw, i, limit)
    decreases j
  {
    hide TierLimit;
    i := j;
    if k :| 0 <= k < j && TierLimit(raw[k]) == Some(limit) { i := Earliest(raw, k, limit); }
  }

  // ------------------------------------------------------------------------
  // The whole form
  // ------------------------------------------------------------------------

  function ListOf<T>(o: Option<seq<T>>): seq<T> { if o.None? then [] else o.value }

  /** A payment advert is kept whole or not at all; only its address may be dropped alone. */
  lemma PayKept(pay: PayCaps)
    ensures var tiers := CanonTiers(pay.tiers); var list := ListOf(pay.protocols);
            CanonPay(pay).Some? <==>
            && (Mentions(list, "x402") || Mentions(list, "mpp"))
            && pay.port.Some? && 1 <= pay.port.value <= 65535 && pay.asset.Some? && IsAsset(pay.asset.value)
            && pay.chain.Some? && IsChain(pay.chain.value) && 1 <= |tiers| <= 8
    ensures CanonPay(pay).Some? ==>
              var p := CanonPay(pay).value; var list := ListOf(pay.protocols);
              && p.protocols == If(Mentions(list, "x402"), "x402") + If(Mentions(list, "mpp"), "mpp")
              && p.port == pay.port.value && p.asset == Lower(pay.asset.value) && p.chain == pay.chain.value
              && p.tiers == CanonTiers(pay.tiers)
              && p.onion == if pay.onion.Some? && IsV3Onion(Lower(pay.onion.value)) then Some(Lower(pay.onion.value)) else None
  {
    hide Mentions, IsAsset, IsChain, IsV3Onion, CanonTiers, InOrder;
    ProtocolsKept(ListOf(pay.protocols));
  }

  /** The rate policy, all of it or none. */
  lemma RateKept(r: RateCaps)
    ensures CanonRate(r).Some? <==>
            && r.scope == "grove-v4" && r.window == "fixed" && 1 <= r.epochSeconds <= 86400
            && 0 <= r.previousEpochsAccepted <= 16 && 1 <= r.rootFreshnessSeconds <= 86400 && r.payloadBytesPerSlot > 0
    ensures CanonRate(r).Some? ==>
              var c := CanonRate(r).value;
              && c.scope == r.scope && c.window == r.window && c.epochSeconds == r.epochSeconds
              && c.previousEpochsAccepted == r.previousEpochsAccepted && c.rootFreshnessSeconds == r.rootFreshnessSeconds
              && c.payloadBytesPerSlot == r.payloadBytesPerSlot
  {}

  /** Every field of the canonical form comes from the field of that name, and from it alone. */
  lemma CanonicalKeeps(c: Caps)
    ensures var cc := Canonical(c);
            && cc.ports == CanonPorts(c.ports) && cc.artifacts == CanonArtifacts(c.artifacts)
            && cc.region == (if c.region.Some? && c.region.value in {"na", "sa", "eu", "af", "as", "oc", "aq", "unknown"} then c.region else None)
            && (cc.proto.Some? <==> c.proto.Some? && 1 <= c.proto.value.min <= c.proto.value.max)
            && (cc.proto.Some? ==> cc.proto.value.0 == c.proto.value.min && cc.proto.value.1 == c.proto.value.max)
            && var names := If(Mentions(ListOf(c.admits), "invited"), "invited") + If(Mentions(ListOf(c.admits), "staked"), "staked")
                            + If(Mentions(ListOf(c.admits), "paid"), "paid");
            && cc.admits == (if names == [] then None else Some(names))
            && cc.pay == (if c.pay.None? then None else CanonPay(c.pay.value))
            && cc.rate == (if c.rate.None? then None else CanonRate(c.rate.value))
  {
    hide Mentions, CanonPorts, CanonArtifacts, CanonPay, CanonRate, InOrder;
    AdmitsKept(ListOf(c.admits));
    NobodyMentioned("invited");
    NobodyMentioned("staked");
    NobodyMentioned("paid");
  }

  /** There are capabilities to sign exactly when some field is kept. */
  lemma HasCapsIff(c: Caps)
    ensures var cc := Canonical(c);
            HasCaps(c) <==> cc.ports.Some? || cc.region.Some? || cc.proto.Some? || cc.artifacts.Some? || cc.admits.Some?
                            || cc.pay.Some? || cc.rate.Some?
  {
    hide Canonical;
  }

  lemma NobodyMentioned(name: string)
    ensures !Mentions([], name)
  {}
}
