/** `verify_directory_with_signers`, and what an accepted directory is worth: with signatures
    nobody can forge, its covered content is what each counted key signed. */
module DirectoryTrust {
  import opened Common
  import opened Records
  import opened CapsCanon
  import opened SignedBytes
  import opened Onion
  import opened Hex
  import opened Verification

  predicate IsThreshold(d: Directory) { d.threshold.Some? || d.signers.Some? || d.signatures.Some? }

  /** `verify_directory` against one pin: the reason of the rejection, if any. */
  function Refusal(c: Crypto, d: Directory, pin: string): Option<Reason> {
    if IsThreshold(d) then
      var r := ThresholdVerdict(c, d, [pin]);
      if r.Ok? then None else Some(r.error)
    else if d.signature.None? then Some(Unsigned)
    else if d.signer.Some? && pin != "" && Lower(d.signer.value) != Lower(pin) then Some(SignerNotPinned)
    else if !Signs(c, DirectoryBytes(d), pin, d.signature.value) then Some(BadSignature)
    else FirstReason(c, d.gateways)
  }

  /** The declared signer without `0x` or `0X`, lowercased. */
  function Declared(signer: string): string {
    Lower(if "0x" <= signer then signer[2..] else if "0X" <= signer then signer[2..] else signer)
  }

  function FirstPin(c: Crypto, d: Directory, keys: seq<string>): Verdict {
    if |keys| == 0 then Err(BadSignature)
    else if Refusal(c, d, keys[0]).None? then Ok([keys[0]])
    else FirstPin(c, d, keys[1..])
  }

  function WithSigners(c: Crypto, d: Directory, pins: seq<string>): Verdict {
    var keys := NormalizePinned(pins);
    if |keys| == 0 then Err(SignerNotPinned)
    else if IsThreshold(d) then ThresholdVerdict(c, d, keys)
    else if d.signer.Some? then
      var declared := Declared(d.signer.value);
      if declared !in keys then Err(SignerNotPinned)
      else
        var bad := Refusal(c, d, declared);
        if bad.Some? then Err(bad.value) else Ok([declared])
    else FirstPin(c, d, keys)
  }

  method VerifyDirectoryWithSigners(c: Crypto, d: Directory, pins: seq<string>) returns (r: Verdict)
    ensures r == WithSigners(c, d, pins)
  {
    hide ThresholdVerdict, Refusal;
    var keys := NormalizePinned(pins);
    if |keys| == 0 {
      return Err(SignerNotPinned);
    }
    if IsThreshold(d) {
      r := VerifyDirectoryThreshold(c, d, keys);
      return;
    }
    if d.signer.Some? {
      var declared := Declared(d.signer.value);
      if declared !in keys {
        return Err(SignerNotPinned);
      }
      var bad := Refusal(c, d, declared);
      return if bad.Some? then Err(bad.value) else Ok([declared]);
    }
    for i := 0 to |keys|
      invariant FirstPin(c, d, keys) == FirstPin(c, d, keys[i..])
    {
      assert keys[i..][0] == keys[i] && keys[i..][1..] == keys[i + 1..];
      if Refusal(c, d, keys[i]).None? {
        return Ok([keys[i]]);
      }
    }
    r := Err(BadSignature);
  }

  // ------------------------------------------------------------------------
  // Directories with a single signature
  // ------------------------------------------------------------------------

  /** A key that verifies anything is plain hex, so it has no prefix to strip. */
  lemma KeysHaveNoPrefix(c: Crypto, message: string, key: string, signature: string)
    requires Signs(c, message, key, signature)
    ensures !("0x" <= key) && !("0X" <= key) && key != ""
  {}

  /** The key a directory with one signature is accepted under: pinned, it verifies, and the
      directory's own label, if any, is that key letter for letter up to case. */
  ghost predicate SoleSigner(c: Crypto, d: Directory, pins: seq<string>, key: string) {
    && key in PinnedKeys(pins)
    && d.signature.Some? && Signs(c, DirectoryBytes(d), key, d.signature.value)
    && (d.signer.Some? ==> Lower(d.signer.value) == key)
  }

  lemma PinsAreLowercase(pins: seq<string>, key: string)
    requires key in NormalizePinned(pins)
    ensures Lower(key) == key
  {}

  lemma RefusalIff(c: Crypto, d: Directory, pins: seq<string>, key: string)
    requires !IsThreshold(d) && key in NormalizePinned(pins)
    requires d.signer.Some? ==> key == Declared(d.signer.value)
    ensures Refusal(c, d, key).None? <==> SoleSigner(c, d, pins, key) && Bound(c, d.gateways)
  {
    hide Signs, Bound, FirstReason, DirectoryBytes;
    PinsAreLowercase(pins, key);
    PinnedKeysAre(pins);
    hide PinnedKeys;
    assert key in SeqToSet(NormalizePinned(pins));
    BindingsHoldIff(c, d.gateways);
    if d.signature.Some? && Signs(c, DirectoryBytes(d), key, d.signature.value) {
      KeysHaveNoPrefix(c, DirectoryBytes(d), key, d.signature.value);
    }
  }

  lemma {:induction false} FirstPinIff(c: Crypto, d: Directory, pins: seq<string>, keys: seq<string>)
    requires !IsThreshold(d) && d.signer.None? && forall k :: k in keys ==> k in NormalizePinned(pins)
    ensures var r := FirstPin(c, d, keys);
            && (r.Ok? <==> Bound(c, d.gateways) && exists k :: k in keys && SoleSigner(c, d, pins, k))
            && (r.Ok? ==> |r.value| == 1 && SoleSigner(c, d, pins, r.value[0]))
    decreases |keys|
  {
    hide SoleSigner, Bound, Refusal;
    if |keys| > 0 {
      RefusalIff(c, d, pins, keys[0]);
      FirstPinIff(c, d, pins, keys[1..]);
      assert forall k :: k in keys <==> k == keys[0] || k in keys[1..];
    }
  }

  lemma DeclaredUnlessPrefixed(signer: string)
    ensures "0x" <= Lower(signer) || Declared(signer) == Lower(signer)
  {}

  /** Acceptance of a directory with a single signature, exactly. */
  lemma SingleAcceptsIff(c: Crypto, d: Directory, pins: seq<string>)
    requires !IsThreshold(d)
    ensures var r := WithSigners(c, d, pins);
            && (r.Ok? <==> Bound(c, d.gateways) && exists key :: SoleSigner(c, d, pins, key))
            && (r.Ok? ==> |r.value| == 1 && SoleSigner(c, d, pins, r.value[0]))
  {
    hide Bound, Refusal, DirectoryBytes, Signs;
    var keys := NormalizePinned(pins);
    PinnedKeysAre(pins);
    hide PinnedKeys, KeyOf;
    assert forall k :: k in keys <==> k in SeqToSet(keys);
    if d.signer.None? {
      FirstPinIff(c, d, pins, keys);
    } else {
      var declared := Declared(d.signer.value);
      if declared in keys { RefusalIff(c, d, pins, declared); }
      forall key | SoleSigner(c, d, pins, key) ensures key == declared {
        KeysHaveNoPrefix(c, DirectoryBytes(d), key, d.signature.value);
        DeclaredUnlessPrefixed(d.signer.value);
      }
    }
  }

  /** Of several pins under which an unlabelled directory verifies, the first is returned. */
  lemma {:induction false} FirstPinIsFirst(c: Crypto, d: Directory, keys: seq<string>) returns (k: nat)
    requires FirstPin(c, d, keys).Ok?
    ensures k < |keys| && FirstPin(c, d, keys) == Ok([keys[k]]) && forall i :: 0 <= i < k ==> Refusal(c, d, keys[i]).Some?
    decreases |keys|
  {
    hide Refusal;
    if Refusal(c, d, keys[0]).None? {
      k := 0;
    } else {
      var m := FirstPinIsFirst(c, d, keys[1..]);
      k := m + 1;
      assert forall i :: 1 <= i < k ==> keys[i] == keys[1..][i - 1];
    }
  }

  /** Why a directory with a single signature is refused, the first reason that applies: no
      pins, a label that is not pinned, no signature, a label that is not the bare key, a
      signature that does not verify, and then the first gateway that is not bound. */
  lemma SingleReasons(c: Crypto, d: Directory, pins: seq<string>)
    requires !IsThreshold(d) && WithSigners(c, d, pins).Err?
    ensures var why := WithSigners(c, d, pins).error;
            if PinnedKeys(pins) == {} then why == SignerNotPinned
            else if d.signer.None? then why == BadSignature
            else
              var key := KeyOf(d.signer.value);
              if key !in PinnedKeys(pins) then why == SignerNotPinned
              else if d.signature.None? then why == Unsigned
              else if key != "" && Lower(d.signer.value) != key then why == SignerNotPinned
              else if !Signs(c, DirectoryBytes(d), key, d.signature.value) then why == BadSignature
              else FirstReason(c, d.gateways) == Some(why)
  {
    hide Signs, DirectoryBytes, FirstReason;
    var keys := NormalizePinned(pins);
    PinnedKeysAre(pins);
    assert forall k :: k in keys <==> k in SeqToSet(keys);
    if |keys| > 0 { assert keys[0] in SeqToSet(keys); } else { assert SeqToSet(keys) == {}; }
    if d.signer.Some? {
      NormIsKeyOf(d.signer.value);
      var key := KeyOf(d.signer.value);
      if key in keys { PinsAreLowercase(pins, key); }
    } else {
      OnlyBadSignature(c, d, keys);
    }
  }

  lemma {:induction false} OnlyBadSignature(c: Crypto, d: Directory, keys: seq<string>)
    ensures FirstPin(c, d, keys).Err? ==> FirstPin(c, d, keys) == Err(BadSignature)
    decreases |keys|
  {
    hide Refusal;
    if |keys| > 0 { OnlyBadSignature(c, d, keys[1..]); }
  }

  /** The label is stripped of `0x` when it is looked up among the pins but compared as
      written afterwards, so a prefixed label is never accepted, whatever the pins. */
  lemma PrefixedLabelRefused(c: Crypto, d: Directory, pins: seq<string>)
    requires !IsThreshold(d) && d.signer.Some? && "0x" <= Lower(d.signer.value)
    ensures WithSigners(c, d, pins).Err?
  {
    SingleAcceptsIff(c, d, pins);
    forall key | SoleSigner(c, d, pins, key) ensures false {
      KeysHaveNoPrefix(c, DirectoryBytes(d), key, d.signature.value);
    }
  }

  /** The same directory, signature and pins: accepted under a label, refused once `0x` is put
      before it, although the signed bytes do not even cover the label. */
  lemma PrefixTurnsToRefusal(c: Crypto, d: Directory, pins: seq<string>, name: string)
    requires !IsThreshold(d) && d.signer == Some(name) && WithSigners(c, d, pins).Ok?
    ensures var e := d.(signer := Some("0x" + name));
            WithSigners(c, e, pins) == Err(SignerNotPinned) && DirectoryBytes(e) == DirectoryBytes(d)
  {
    hide Bound, Signs, FirstReason;
    SingleAcceptsIff(c, d, pins);
    var key := WithSigners(c, d, pins).value[0];
    KeysHaveNoPrefix(c, DirectoryBytes(d), key, d.signature.value);
    assert SoleSigner(c, d, pins, key);
    assert ("0x" + name)[2..] == name && "0x" <= "0x" + name;
    assert Declared("0x" + name) == Lower(name) == key;
    assert |Lower("0x" + name)| == |key| + 2 && |Lower(key)| == |key|;
  }

  // ------------------------------------------------------------------------
  // Spellings of a pin
  // ------------------------------------------------------------------------

  /** A key spelled in any case, bare or after `0x` or `0X`, stands for the same key. */
  lemma SpellingsOfAKey(bare: string, p: string)
    requires !("0x" <= Lower(bare)) && Lower(p) == Lower(bare)
    ensures KeyOf(p) == Lower(bare) && KeyOf("0x" + p) == Lower(bare) && KeyOf("0X" + p) == Lower(bare)
  {
    assert ("0x" + p)[2..] == p && ("0X" + p)[2..] == p;
    NormIsKeyOf(p);
  }

  /** Pins that stand for the same key are interchangeable in every allowlist. */
  lemma SpellingIsIrrelevant(c: Crypto, d: Directory, before: seq<string>, p: string, q: string, after: seq<string>)
    requires p != "" && q != "" && KeyOf(p) == KeyOf(q)
    ensures WithSigners(c, d, before + [p] + after) == WithSigners(c, d, before + [q] + after)
  {
    hide ThresholdVerdict, Refusal, Norm, KeyOf;
    NormIsKeyOf(p);
    NormIsKeyOf(q);
    NormalizeAppends(before, [p] + after);
    NormalizeAppends(before, [q] + after);
    assert before + [p] + after == before + ([p] + after) && before + [q] + after == before + ([q] + after);
    assert ([p] + after)[1..] == after && ([q] + after)[1..] == after;
  }

  lemma {:induction false} NormalizeAppends(a: seq<string>, b: seq<string>)
    ensures NormalizePinned(a + b) == NormalizePinned(a) + NormalizePinned(b)
    decreases |a|
  {
    hide Norm;
    if |a| == 0 {
      assert a + b == b;
    } else {
      NormalizeAppends(a[1..], b);
      assert (a + b)[1..] == a[1..] + b && (a + b)[0] == a[0];
      var head := if a[0] == "" then [] else [Norm(a[0])];
      assert NormalizePinned(a + b) == head + NormalizePinned(a[1..] + b) && NormalizePinned(a) == head + NormalizePinned(a[1..]);
      hide NormalizePinned;
      assert head + (NormalizePinned(a[1..]) + NormalizePinned(b)) == (head + NormalizePinned(a[1..])) + NormalizePinned(b);
    }
  }

  // ------------------------------------------------------------------------
  // Every accepted directory
  // ------------------------------------------------------------------------

  /** A key that comes from a pin: lowercased, stripped of `0x` once or, where the allowlist
      passes through the threshold rule, twice. */
  ghost predicate FromPins(pins: seq<string>, key: string) {
    exists p :: p in pins && p != "" && (key == KeyOf(p) || key == KeyOf(KeyOf(p)))
  }

  ghost predicate Endorses(c: Crypto, d: Directory, key: string) {
    exists signature :: Signs(c, DirectoryBytes(d), key, signature)
  }

  /** Whatever its form, an accepted directory was signed by each key returned, each a pinned
      key and each once, at least as many as its threshold, and every gateway is bound. */
  lemma AcceptedIsEndorsed(c: Crypto, d: Directory, pins: seq<string>)
    requires WithSigners(c, d, pins).Ok?
    ensures var keys := WithSigners(c, d, pins).value;
            && Distinct(keys) && |keys| >= (if IsThreshold(d) then d.threshold.value else 1) >= 1
            && forall k :: k in keys ==> FromPins(pins, k) && Endorses(c, d, k)
    ensures Bound(c, d.gateways)
  {
    hide Bound, DirectoryBytes, Signs, Refusal, FirstPin;
    var keys := WithSigners(c, d, pins).value;
    if IsThreshold(d) {
      var allow := NormalizePinned(pins);
      ThresholdAcceptsIff(c, d, allow);
      hide ThresholdVerdict;
      assert |keys| >= d.threshold.value by { DistinctCount(keys); }
      var pairs := Zip(d.signers.value, d.signatures.value);
      PinnedKeysAre(pins);
      forall k | k in keys ensures FromPins(pins, k) && Endorses(c, d, k) {
        assert k in SeqToSet(keys) && k in Endorsers(c, DirectoryBytes(d), PinnedKeys(allow), pairs);
        var q :| q in allow && q != "" && k == KeyOf(q);
        assert q in SeqToSet(allow);
        var p :| p in pins && p != "" && q == KeyOf(p);
      }
    } else {
      SingleAcceptsIff(c, d, pins);
    }
  }

  lemma {:induction false} DistinctCount(s: seq<string>)
    requires Distinct(s)
    ensures |SeqToSet(s)| == |s|
    decreases |s|
  {
    if |s| > 0 {
      var front, last := s[..|s| - 1], s[|s| - 1];
      DistinctCount(front);
      assert SeqToSet(s) == SeqToSet(front) + {last};
    } else {
      assert SeqToSet(s) == {};
    }
  }

  /** Everything a key of this system signs. */
  datatype Signed =
    | SignedDirectory(d: Directory)
    | SignedAnnounce(a: Announce)
    | SignedCaps(onion: string, caps: Caps)
    | SignedReceipt(r: Receipt)

  function BytesOf(x: Signed): string {
    match x
    case SignedDirectory(d) => DirectoryBytes(d)
    case SignedAnnounce(a) => AnnounceBytes(a)
    case SignedCaps(onion, caps) => CapsBytes(onion, caps)
    case SignedReceipt(r) => ReceiptBytes(r)
  }

  /** Nobody forges: what verifies under a key are the bytes of something it signed. */
  ghost predicate Unforgeable(c: Crypto, signed: (Pubkey, Signed) -> bool) {
    forall message, sig, key :: c.verify(message, sig, key) ==> exists x :: signed(key, x) && BytesOf(x) == message
  }

  ghost predicate SignedIt(signed: (Pubkey, Signed) -> bool, key: Pubkey, d: Directory) {
    exists e :: signed(key, SignedDirectory(e)) && SameDirectory(d, e)
  }

  ghost predicate Attested(signed: (Pubkey, Signed) -> bool, key: Pubkey, onion: string, caps: Caps) {
    exists own :: signed(key, SignedCaps(onion, own)) && Canonical(own) == Canonical(caps)
  }

  lemma SignatureIsForDirectory(c: Crypto, signed: (Pubkey, Signed) -> bool, d: Directory, sig: Signature, key: Pubkey)
    requires Unforgeable(c, signed) && c.verify(DirectoryBytes(d), sig, key)
    ensures SignedIt(signed, key, d)
  {
    var x :| signed(key, x) && BytesOf(x) == DirectoryBytes(d);
    hide DirectoryBytes, AnnounceBytes, CapsBytes, ReceiptBytes;
    var a0, r0, c0 := Announce(0, "", 0, 0, "", None), Receipt(0, "", "", false), Caps(None, None, None, None, None, None, None);
    match x {
      case SignedDirectory(e) => DirectoryBytesUnambiguous(d, e);
      case SignedAnnounce(a) => KindsNeverCollide(d, a, "", c0, r0);
      case SignedCaps(onion, caps) => KindsNeverCollide(d, a0, onion, caps, r0);
      case SignedReceipt(r) => KindsNeverCollide(d, a0, "", c0, r);
    }
  }

  lemma SignatureIsForCaps(c: Crypto, signed: (Pubkey, Signed) -> bool, onion: string, caps: Caps, sig: Signature, key: Pubkey)
    requires Unforgeable(c, signed) && c.verify(CapsBytes(onion, caps), sig, key)
    ensures Attested(signed, key, onion, caps)
  {
    var x :| signed(key, x) && BytesOf(x) == CapsBytes(onion, caps);
    hide DirectoryBytes, AnnounceBytes, CapsBytes, ReceiptBytes, Canonical;
    var a0, r0, d0 := Announce(0, "", 0, 0, "", None), Receipt(0, "", "", false), Directory(0, 0, [], None, None, None, None, None);
    match x {
      case SignedDirectory(d) => KindsNeverCollide(d, a0, onion, caps, r0);
      case SignedAnnounce(a) => KindsNeverCollide(d0, a, onion, caps, r0);
      case SignedCaps(o, own) => CapsBytesUnambiguous(onion, caps, o, own);
      case SignedReceipt(r) => KindsNeverCollide(d0, a0, onion, caps, r);
    }
  }

  /** With unforgeable signatures, each key counted for an accepted directory really signed a
      directory with the same covered content, even if its holder also signs announces,
      capability records and receipts with it. */
  lemma AcceptedWasSigned(c: Crypto, d: Directory, pins: seq<string>, signed: (Pubkey, Signed) -> bool, k: string)
    requires Unforgeable(c, signed)
    requires WithSigners(c, d, pins).Ok? && k in WithSigners(c, d, pins).value
    ensures exists key: Pubkey :: HexDecode(k) == Some(key) && SignedIt(signed, key, d)
  {
    hide Unforgeable, WithSigners, SignedIt, DirectoryBytes;
    AcceptedIsEndorsed(c, d, pins);
    var signature :| Signs(c, DirectoryBytes(d), k, signature);
    var key: Pubkey := HexDecode(k).value;
    SignatureIsForDirectory(c, signed, d, HexDecode(signature).value, key);
  }

  /** And the capabilities of each gateway in it were attested by the key its own onion
      address encodes: no directory signer can invent or alter them. */
  lemma AcceptedCapsWereAttested(c: Crypto, d: Directory, pins: seq<string>, signed: (Pubkey, Signed) -> bool, i: nat)
    requires Unforgeable(c, signed) && WithSigners(c, d, pins).Ok? && i < |d.gateways|
    requires d.gateways[i].caps.Some? && HasCaps(d.gateways[i].caps.value)
    ensures var g := d.gateways[i];
            exists key :: OnionToPubkey(g.onion, c.checksum) == Ok(key) && Attested(signed, key, g.onion, g.caps.value)
  {
    hide Unforgeable, WithSigners, HasCaps, CapsBytes, OnionToPubkey, Address, PubkeyToOnion, Attested;
    AcceptedIsEndorsed(c, d, pins);
    var g := d.gateways[i];
    assert BoundEntry(c, g);
    var key :| BoundTo(c, g, key);
    DecodesIff(g.onion, key, c.checksum);
    SignatureIsForCaps(c, signed, g.onion, g.caps.value, HexDecode(g.capsSig.value).value, key);
  }
}
