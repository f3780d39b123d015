/** Acceptance of a signed directory: gateway bindings, the M-of-N threshold and the single
    signer, over the canonical bytes of `SignedBytes`. Ed25519 (section 5.1 of RFC 8032) is
    an arbitrary verification function. */
module Verification {
  import opened Common
  import opened Records
  import opened CapsCanon
  import opened SignedBytes
  import opened Onion
  import opened Hex

  type Signature = s: seq<byte> | |s| == 64 witness seq(64, _ => 0)

  datatype Crypto = Crypto(checksum: Checksum, verify: (string, Signature, Pubkey) -> bool)

  datatype Reason =
    | BadThreshold
    | BadSignatures
    | ThresholdExceedsSigners
    | ThresholdNotMet(got: nat, want: int)
    | Unsigned
    | SignerNotPinned
    | BadSignature
    | BadOnion(prefix: string, why: OnionError)
    | PubkeyOnionMismatch(prefix: string)
    | BadCapsSig(prefix: string)

  type Verdict = Result<seq<string>, Reason>

  /** A hex key signed the message: anything that does not decode does not verify. */
  predicate Signs(c: Crypto, message: string, key: string, signature: string) {
    var pk, sig := HexDecode(key), HexDecode(signature);
    && pk.Some? && |pk.value| == 32
    && sig.Some? && |sig.value| == 64
    && c.verify(message, sig.value, pk.value)
  }

  // ------------------------------------------------------------------------
  // Gateway bindings
  // ------------------------------------------------------------------------

  predicate VerifyCapsSig(c: Crypto, onion: string, caps: Caps, capsSig: Option<string>) {
    && capsSig.Some? && capsSig.value != ""
    && var key := OnionToPubkey(onion, c.checksum);
    && key.Ok?
    && var sig := HexDecode(capsSig.value);
    && sig.Some? && |sig.value| == 64
    && c.verify(CapsBytes(onion, caps), sig.value, key.value)
  }

  function Take12(s: string): string { if |s| <= 12 then s else s[..12] }

  /** A reason about a gateway entry, not about signers. */
  predicate Structural(r: Reason) { r.BadOnion? || r.PubkeyOnionMismatch? || r.BadCapsSig? }

  /** What is wrong with one entry, if anything. */
  function EntryReason(c: Crypto, g: GatewayEntry): (r: Option<Reason>)
    ensures r.Some? ==> Structural(r.value)
  {
    var key := OnionToPubkey(g.onion, c.checksum);
    if key.Err? then Some(BadOnion(Take12(g.onion), key.error))
    else if HexEncode(key.value) != Lower(g.pubkey) then Some(PubkeyOnionMismatch(Take12(g.onion)))
    else if g.caps.Some? && HasCaps(g.caps.value) && !VerifyCapsSig(c, g.onion, g.caps.value, g.capsSig)
    then Some(BadCapsSig(Take12(g.onion)))
    else None
  }

  function FirstReason(c: Crypto, gs: seq<GatewayEntry>): (r: Option<Reason>)
    ensures r.Some? ==> Structural(r.value)
  {
    if |gs| == 0 then None
    else if EntryReason(c, gs[0]).Some? then EntryReason(c, gs[0])
    else FirstReason(c, gs[1..])
  }

  /** An entry's pubkey, its onion address and, if it advertises capabilities, their
      signature all belong to one key. */
  ghost predicate BoundTo(c: Crypto, g: GatewayEntry, key: Pubkey) {
    && HexDecode(g.pubkey) == Some(key)
    && Address(g.onion) + SUFFIX == PubkeyToOnion(key, c.checksum)
    && (g.caps.Some? && HasCaps(g.caps.value) ==>
        && g.capsSig.Some?
        && var sig := HexDecode(g.capsSig.value);
        && sig.Some? && |sig.value| == 64 && c.verify(CapsBytes(g.onion, g.caps.value), sig.value, key))
  }

  ghost predicate BoundEntry(c: Crypto, g: GatewayEntry) { exists key :: BoundTo(c, g, key) }

  ghost predicate Bound(c: Crypto, gs: seq<GatewayEntry>) {
    forall i :: 0 <= i < |gs| ==> BoundEntry(c, gs[i])
  }

  lemma EntryAcceptedIff(c: Crypto, g: GatewayEntry)
    ensures EntryReason(c, g).None? <==> BoundEntry(c, g)
  {
    hide HasCaps, CapsBytes, Address, PubkeyToOnion, OnionToPubkey, HexEncode;
    var r := OnionToPubkey(g.onion, c.checksum);
    if EntryReason(c, g).None? {
      DecodesIff(g.onion, r.value, c.checksum);
      HexDecodesIff(g.pubkey, r.value);
      assert BoundTo(c, g, r.value);
    }
    forall key: Pubkey | BoundTo(c, g, key) ensures EntryReason(c, g).None? {
      DecodesIff(g.onion, key, c.checksum);
      HexDecodesIff(g.pubkey, key);
    }
  }

  lemma {:induction false} BindingsHoldIff(c: Crypto, gs: seq<GatewayEntry>)
    ensures FirstReason(c, gs).None? <==> Bound(c, gs)
    decreases |gs|
  {
    hide EntryReason, BoundEntry;
    if |gs| > 0 {
      EntryAcceptedIff(c, gs[0]);
      BindingsHoldIff(c, gs[1..]);
      assert forall i :: 0 < i < |gs| ==> gs[i] == gs[1..][i - 1];
      assert forall i :: 0 <= i < |gs| - 1 ==> gs[1..][i] == gs[i + 1];
    }
  }

  method CheckGatewayBindings(c: Crypto, gs: seq<GatewayEntry>) returns (r: Option<Reason>)
    ensures r == FirstReason(c, gs)
  {
    hide EntryReason;
    for i := 0 to |gs|
      invariant FirstReason(c, gs) == FirstReason(c, gs[i..])
    {
      assert gs[i..][0] == gs[i] && gs[i..][1..] == gs[i + 1..];
      r := EntryReason(c, gs[i]);
      if r.Some? {
        return;
      }
    }
    r := None;
  }

  // ------------------------------------------------------------------------
  // The threshold rule
  // ------------------------------------------------------------------------

  /** Lowercase hex without one leading `0x`. */
  function Norm(s: string): string { StripPrefix(Lower(s), "0x") }

  function NormalizePinned(pins: seq<string>): seq<string> {
    if |pins| == 0 then []
    else (if pins[0] == "" then [] else [Norm(pins[0])]) + NormalizePinned(pins[1..])
  }

  /** The distinct pinned keys that verified among the first `n` positions, first seen first. */
  function Counted(c: Crypto, message: string, pinned: set<string>, signers: seq<string>, signatures: seq<string>, n: nat)
      : seq<string>
    requires n <= |signers| == |signatures|
  {
    if n == 0 then []
    else
      var before := Counted(c, message, pinned, signers, signatures, n - 1);
      var key := Norm(signers[n - 1]);
      if key in pinned && key !in before && Signs(c, message, key, signatures[n - 1]) then before + [key] else before
  }

  /** The loop of `verify_directory_threshold`. */
  method CountSigners(c: Crypto, message: string, pinned: set<string>, signers: seq<string>, signatures: seq<string>)
      returns (order: seq<string>)
    requires |signers| == |signatures|
    ensures order == Counted(c, message, pinned, signers, signatures, |signers|)
  {
    hide Signs;
    var counted: set<string> := {};
    order := [];
    for i := 0 to |signers|
      invariant order == Counted(c, message, pinned, signers, signatures, i)
      invariant counted == SeqToSet(order)
    {
      var key := Norm(signers[i]);
      if key !in pinned || key in counted {
        continue;
      }
      if Signs(c, message, key, signatures[i]) {
        counted := counted + {key};
        order := order + [key];
      }
    }
  }

  function ThresholdVerdict(c: Crypto, d: Directory, pins: seq<string>): Verdict {
    var pinned := SeqToSet(NormalizePinned(pins));
    if d.threshold.None? || d.threshold.value < 1 then Err(BadThreshold)
    else if d.signers.None? || d.signatures.None? || |d.signers.value| != |d.signatures.value| then Err(BadSignatures)
    else if d.threshold.value > |d.signers.value| then Err(ThresholdExceedsSigners)
    else
      var order := Counted(c, DirectoryBytes(d), pinned, d.signers.value, d.signatures.value, |d.signers.value|);
      if |order| < d.threshold.value then Err(ThresholdNotMet(|order|, d.threshold.value))
      else
        var bad := FirstReason(c, d.gateways);
        if bad.Some? then Err(bad.value) else Ok(order)
  }

  method VerifyDirectoryThreshold(c: Crypto, d: Directory, pins: seq<string>) returns (r: Verdict)
    ensures r == ThresholdVerdict(c, d, pins)
  {
    hide Counted, FirstReason, DirectoryBytes;
    var pinned := SeqToSet(NormalizePinned(pins));
    if d.threshold.None? || d.threshold.value < 1 {
      return Err(BadThreshold);
    }
    if d.signers.None? || d.signatures.None? || |d.signers.value| != |d.signatures.value| {
      return Err(BadSignatures);
    }
    if d.threshold.value > |d.signers.value| {
      return Err(ThresholdExceedsSigners);
    }
    var order := CountSigners(c, DirectoryBytes(d), pinned, d.signers.value, d.signatures.value);
    if |order| < d.threshold.value {
      return Err(ThresholdNotMet(|order|, d.threshold.value));
    }
    var bad := CheckGatewayBindings(c, d.gateways);
    if bad.Some? {
      return Err(bad.value);
    }
    r := Ok(order);
  }

  /** The key a pin or signer stands for: its letters in lower case, without one leading `0x`
      or `0X`. */
  ghost function KeyOf(s: string): string { if "0x" <= s || "0X" <= s then Lower(s[2..]) else Lower(s) }

  ghost function PinnedKeys(pins: seq<string>): set<string> { set p | p in pins && p != "" :: KeyOf(p) }

  lemma NormIsKeyOf(s: string)
    ensures Norm(s) == KeyOf(s)
  {
    var low := Lower(s);
    if |s| >= 2 {
      assert low[2..] == Lower(s[2..]);
      assert "0x" <= low <==> low[0] == '0' && low[1] == 'x';
      assert "0x" <= s <==> s[0] == '0' && s[1] == 'x';
      assert "0X" <= s <==> s[0] == '0' && s[1] == 'X';
    }
  }

  lemma {:induction false} PinnedKeysAre(pins: seq<string>)
    ensures SeqToSet(NormalizePinned(pins)) == PinnedKeys(pins)
    decreases |pins|
  {
    hide Norm, KeyOf;
    if |pins| > 0 {
      PinnedKeysAre(pins[1..]);
      NormIsKeyOf(pins[0]);
      var rest := NormalizePinned(pins[1..]);
      assert forall k :: k in NormalizePinned(pins) <==> (pins[0] != "" && k == Norm(pins[0])) || k in rest;
      assert forall p :: p in pins <==> p == pins[0] || p in pins[1..];
      assert forall k :: k in rest <==> k in SeqToSet(rest);
    }
  }

  /** The shape checks of a threshold directory. */
  predicate WellShaped(d: Directory) {
    && d.signers.Some? && d.signatures.Some? && |d.signers.value| == |d.signatures.value|
    && d.threshold.Some? && 1 <= d.threshold.value <= |d.signers.value|
  }

  /** The keys that count: pinned, and with a valid signature at some position. */
  ghost function Endorsers(c: Crypto, message: string, pinned: set<string>, pairs: seq<(string, string)>): set<string> {
    set i | 0 <= i < |pairs| && KeyOf(pairs[i].0) in pinned && Signs(c, message, KeyOf(pairs[i].0), pairs[i].1) ::
      KeyOf(pairs[i].0)
  }

  ghost function Zip(a: seq<string>, b: seq<string>): (r: seq<(string, string)>)
    requires |a| == |b|
    ensures |r| == |a| && forall i :: 0 <= i < |a| ==> r[i] == (a[i], b[i])
  {
    seq(|a|, i requires 0 <= i < |a| => (a[i], b[i]))
  }

  ghost function EndorsersOf(c: Crypto, d: Directory, pins: seq<string>): set<string>
    requires WellShaped(d)
  {
    Endorsers(c, DirectoryBytes(d), PinnedKeys(pins), Zip(d.signers.value, d.signatures.value))
  }

  lemma {:induction false} CountedAreEndorsers(
      c: Crypto, message: string, pinned: set<string>, signers: seq<string>, signatures: seq<string>, n: nat)
    requires n <= |signers| == |signatures|
    ensures var order := Counted(c, message, pinned, signers, signatures, n);
            && Distinct(order)
            && SeqToSet(order) == Endorsers(c, message, pinned, Zip(signers, signatures)[..n])
            && |order| == |SeqToSet(order)|
    decreases n
  {
    hide Signs, Norm, KeyOf, Endorsers;
    if n > 0 {
      NormIsKeyOf(signers[n - 1]);
      CountedAreEndorsers(c, message, pinned, signers, signatures, n - 1);
      var pairs := Zip(signers, signatures);
      EndorsersExtend(c, message, pinned, pairs, n - 1);
      var before := Counted(c, message, pinned, signers, signatures, n - 1);
      if Norm(signers[n - 1]) !in before { AppendKey(before, Norm(signers[n - 1])); }
    } else {
      assert Endorsers(c, message, pinned, Zip(signers, signatures)[..0]) == {} by { EndorsersOfNone(c, message, pinned); }
    }
  }

  lemma EndorsersOfNone(c: Crypto, message: string, pinned: set<string>)
    ensures Endorsers(c, message, pinned, []) == {}
  {}

  /** Keys are listed in the order in which they first verified: what was listed stays, and what
      comes later goes behind it. */
  lemma {:induction false} CountedGrows(
      c: Crypto, message: string, pinned: set<string>, signers: seq<string>, signatures: seq<string>, m: nat, n: nat)
    requires m <= n <= |signers| == |signatures|
    ensures Counted(c, message, pinned, signers, signatures, m) <= Counted(c, message, pinned, signers, signatures, n)
    decreases n
  {
    hide Signs, Norm;
    if m < n { CountedGrows(c, message, pinned, signers, signatures, m, n - 1); }
  }

  lemma AppendKey(order: seq<string>, key: string)
    requires Distinct(order) && |order| == |SeqToSet(order)| && key !in order
    ensures Distinct(order + [key]) && SeqToSet(order + [key]) == SeqToSet(order) + {key}
    ensures |order + [key]| == |SeqToSet(order + [key])|
  {}

  lemma EndorsersExtend(c: Crypto, message: string, pinned: set<string>, pairs: seq<(string, string)>, n: nat)
    requires n < |pairs|
    ensures var key := KeyOf(pairs[n].0);
            Endorsers(c, message, pinned, pairs[..n + 1]) ==
            Endorsers(c, message, pinned, pairs[..n]) +
            (if key in pinned && Signs(c, message, key, pairs[n].1) then {key} else {})
  {
    hide Signs, KeyOf;
    var a, b := pairs[..n], pairs[..n + 1];
    assert forall i :: 0 <= i < n ==> b[i] == a[i];
    assert b[n] == pairs[n];
  }

  /** Acceptance, exactly: the shape checks pass, the set of distinct pinned keys with a valid
      signature has at least `threshold` members, and every gateway is bound to its key. The
      keys returned are that set, each once. */
  lemma ThresholdAcceptsIff(c: Crypto, d: Directory, pins: seq<string>)
    ensures var r := ThresholdVerdict(c, d, pins);
            && (r.Ok? <==> WellShaped(d) && |EndorsersOf(c, d, pins)| >= d.threshold.value && Bound(c, d.gateways))
            && (r.Ok? ==> Distinct(r.value) && SeqToSet(r.value) == EndorsersOf(c, d, pins))
  {
    hide Counted, Endorsers, FirstReason, DirectoryBytes, Bound, PinnedKeys;
    PinnedKeysAre(pins);
    if WellShaped(d) {
      var signers, signatures := d.signers.value, d.signatures.value;
      CountedAreEndorsers(c, DirectoryBytes(d), SeqToSet(NormalizePinned(pins)), signers, signatures, |signers|);
      assert Zip(signers, signatures)[..|signers|] == Zip(signers, signatures);
      BindingsHoldIff(c, d.gateways);
    }
  }

  /** The reason of a rejection is the first that applies: no positive threshold, lists missing
      or of different length, more signers wanted than listed, too few distinct endorsers (with
      how many there were), and then the first gateway that is not bound. */
  lemma ThresholdReasons(c: Crypto, d: Directory, pins: seq<string>)
    ensures var r := ThresholdVerdict(c, d, pins);
            var lists := d.signers.Some? && d.signatures.Some? && |d.signers.value| == |d.signatures.value|;
            && (r == Err(BadThreshold) <==> !(d.threshold.Some? && d.threshold.value >= 1))
            && (r == Err(BadSignatures) <==> d.threshold.Some? && d.threshold.value >= 1 && !lists)
            && (r == Err(ThresholdExceedsSigners) <==>
                d.threshold.Some? && d.threshold.value >= 1 && lists && d.threshold.value > |d.signers.value|)
            && (forall got, want :: r == Err(ThresholdNotMet(got, want)) <==>
                WellShaped(d) && got == |EndorsersOf(c, d, pins)| < d.threshold.value == want)
            && (WellShaped(d) && |EndorsersOf(c, d, pins)| >= d.threshold.value && r.Err? ==>
                FirstReason(c, d.gateways) == Some(r.error))
  {
    hide Counted, Endorsers, FirstReason, DirectoryBytes, PinnedKeys;
    PinnedKeysAre(pins);
    if WellShaped(d) {
      var signers, signatures := d.signers.value, d.signatures.value;
      CountedAreEndorsers(c, DirectoryBytes(d), SeqToSet(NormalizePinned(pins)), signers, signatures, |signers|);
      assert Zip(signers, signatures)[..|signers|] == Zip(signers, signatures);
    }
  }

  /** Which entry is reported, and for what: the first that is not bound; its address if that
      does not decode, its pubkey if that is another key, its capability signature otherwise. */
  lemma {:induction false} FirstBadEntry(c: Crypto, gs: seq<GatewayEntry>) returns (k: nat)
    requires FirstReason(c, gs).Some?
    ensures k < |gs| && FirstReason(c, gs) == EntryReason(c, gs[k]) && forall i :: 0 <= i < k ==> EntryReason(c, gs[i]).None?
    decreases |gs|
  {
    hide EntryReason;
    if EntryReason(c, gs[0]).Some? {
      k := 0;
    } else {
      var m := FirstBadEntry(c, gs[1..]);
      k := m + 1;
      assert forall i :: 1 <= i < k ==> gs[i] == gs[1..][i - 1];
    }
  }

  lemma EntryReasons(c: Crypto, g: GatewayEntry)
    ensures var r := EntryReason(c, g); var key := OnionToPubkey(g.onion, c.checksum);
            && (key.Err? <==> r.Some? && r.value.BadOnion?)
            && (key.Ok? && HexDecode(g.pubkey) != Some(key.value) <==> r.Some? && r.value.PubkeyOnionMismatch?)
            && (r.Some? ==> r.value.prefix <= g.onion && |r.value.prefix| == (if |g.onion| < 12 then |g.onion| else 12))
            && (r.Some? && r.value.BadOnion? ==> Err(r.value.why) == key)
  {
    hide OnionToPubkey, HasCaps, VerifyCapsSig, HexEncode, HexDecode;
    var key := OnionToPubkey(g.onion, c.checksum);
    if key.Ok? { HexDecodesIff(g.pubkey, key.value); }
  }

  /** Two verdicts that differ at most in the order of the keys. */
  ghost predicate SameVerdict(a: Verdict, b: Verdict) {
    if a.Ok? && b.Ok? then SeqToSet(a.value) == SeqToSet(b.value) && |a.value| == |b.value| else a == b
  }

  lemma MultisetIndex<T>(a: seq<T>, b: seq<T>, i: nat)
    requires multiset(a) == multiset(b) && i < |a|
    ensures a[i] in b
  {
    assert a[i] in multiset(a);
  }

  lemma EndorsersPermute(c: Crypto, message: string, pinned: set<string>, a: seq<(string, string)>, b: seq<(string, string)>)
    requires multiset(a) == multiset(b)
    ensures Endorsers(c, message, pinned, a) <= Endorsers(c, message, pinned, b)
  {
    hide Signs, KeyOf;
    forall key | key in Endorsers(c, message, pinned, a) ensures key in Endorsers(c, message, pinned, b) {
      var i :| 0 <= i < |a| && KeyOf(a[i].0) in pinned && Signs(c, message, KeyOf(a[i].0), a[i].1) && key == KeyOf(a[i].0);
      MultisetIndex(a, b, i);
      var j :| 0 <= j < |b| && b[j] == a[i];
    }
  }

  /** Jointly permuting signers and signatures changes nothing but the order of the keys
      returned: the same acceptance and the same reason for a rejection. */
  lemma PermutationInvariant(c: Crypto, d: Directory, signers: seq<string>, signatures: seq<string>, pins: seq<string>)
    requires d.signers.Some? && d.signatures.Some? && |d.signers.value| == |d.signatures.value|
    requires |signers| == |signatures|
    requires multiset(Zip(signers, signatures)) == multiset(Zip(d.signers.value, d.signatures.value))
    ensures SameVerdict(ThresholdVerdict(c, d, pins),
                        ThresholdVerdict(c, d.(signers := Some(signers), signatures := Some(signatures)), pins))
  {
    hide Endorsers, FirstReason, Counted;
    var e := d.(signers := Some(signers), signatures := Some(signatures));
    var a, b := Zip(d.signers.value, d.signatures.value), Zip(signers, signatures);
    var message, pinned := DirectoryBytes(d), SeqToSet(NormalizePinned(pins));
    assert DirectoryBytes(e) == message;
    assert |a| == |multiset(a)| && |b| == |multiset(b)|;
    EndorsersPermute(c, message, pinned, a, b);
    EndorsersPermute(c, message, pinned, b, a);
    if WellShaped(d) {
      CountedAreEndorsers(c, message, pinned, d.signers.value, d.signatures.value, |a|);
      CountedAreEndorsers(c, message, pinned, signers, signatures, |b|);
      assert a[..|a|] == a && b[..|b|] == b;
      var x := Counted(c, message, pinned, d.signers.value, d.signatures.value, |a|);
      var y := Counted(c, message, pinned, signers, signatures, |b|);
      assert SeqToSet(x) == SeqToSet(y) && |x| == |y|;
    }
  }

  /** One key, one vote: an accepted directory has at least `threshold` distinct normalised
      pins and as many distinct normalised signers, however often each is listed. */
  lemma OneKeyOneVote(c: Crypto, d: Directory, pins: seq<string>)
    requires ThresholdVerdict(c, d, pins).Ok?
    ensures d.threshold.value <= |PinnedKeys(pins)|
    ensures d.threshold.value <= |set i | 0 <= i < |d.signers.value| :: KeyOf(d.signers.value[i])|
  {
    hide Signs, KeyOf, DirectoryBytes, PinnedKeys;
    ThresholdAcceptsIff(c, d, pins);
    var keys := EndorsersOf(c, d, pins);
    var pinned := PinnedKeys(pins);
    var listed := set i | 0 <= i < |d.signers.value| :: KeyOf(d.signers.value[i]);
    assert keys <= pinned && keys <= listed;
    Smaller(keys, pinned);
    Smaller(keys, listed);
  }

  lemma Smaller<T>(a: set<T>, b: set<T>)
    requires a <= b
    ensures |a| <= |b|
  {
    assert b == a + (b - a);
  }
}
