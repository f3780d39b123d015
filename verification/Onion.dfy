/** Tor v3 onion addresses: base32 (section 6 of RFC 4648, lowercase, no padding) over the
    key, a two-byte checksum and the version byte, as in section 6 of rend-spec-v3. The
    checksum is an arbitrary function of the key. */
module Onion {
  import opened Common
  import opened Positional

  type Pubkey = k: seq<byte> | |k| == 32 witness seq(32, _ => 0)

  type Checksum = Pubkey -> (byte, byte)

  datatype OnionError = NotV3 | BadChar | WrongSize | WrongVersion | ChecksumMismatch

  const SUFFIX: string := ".onion"
  const VERSION: byte := 3

  // ------------------------------------------------------------------------
  // The alphabet
  // ------------------------------------------------------------------------

  /** `abcdefghijklmnopqrstuvwxyz234567`. */
  function Symbol(d: nat): char
    requires d < 32
  {
    if d < 26 then 'a' + d as char else '2' + (d - 26) as char
  }

  function SymbolValue(c: char): Option<nat> {
    if 'a' <= c <= 'z' then Some(c as int - 'a' as int)
    else if '2' <= c <= '7' then Some(c as int - '2' as int + 26)
    else None
  }

  function Spell(vs: seq<nat>): (s: string)
    requires InBase(vs, 32)
    ensures |s| == |vs|
    ensures forall i :: 0 <= i < |vs| ==> s[i] == Symbol(vs[i])
  {
    seq(|vs|, i requires 0 <= i < |vs| => Symbol(vs[i]))
  }

  predicate Spelled(s: string) {
    forall i :: 0 <= i < |s| ==> SymbolValue(s[i]).Some?
  }

  function Unspell(s: string): (vs: seq<nat>)
    requires Spelled(s)
    ensures |vs| == |s| && InBase(vs, 32)
    ensures forall i :: 0 <= i < |s| ==> vs[i] == SymbolValue(s[i]).value
  {
    seq(|s|, i requires 0 <= i < |s| => SymbolValue(s[i]).value)
  }

  lemma SpellingRoundTrip(vs: seq<nat>)
    requires InBase(vs, 32)
    ensures Spelled(Spell(vs)) && Unspell(Spell(vs)) == vs
  {}

  lemma UnspellingRoundTrip(s: string)
    requires Spelled(s)
    ensures Spell(Unspell(s)) == s
  {}

  const ALPHABET: string := "abcdefghijklmnopqrstuvwxyz234567"

  /** A symbol is the letter at its value's place in the alphabet, and nothing else is one. */
  lemma SymbolsAreTheAlphabet(d: nat, c: char)
    ensures d < 32 ==> Symbol(d) == ALPHABET[d]
    ensures SymbolValue(c).Some? <==> c in ALPHABET
    ensures SymbolValue(c) == Some(d) <==> d < 32 && c == ALPHABET[d]
  {
    if d < 16 { FirstHalf(d); } else if d < 32 { SecondHalf(d); }
    if SymbolValue(c).Some? {
      var v := SymbolValue(c).value;
      if v < 16 { FirstHalf(v); } else { SecondHalf(v); }
      assert ALPHABET[v] == c;
    }
    if c in ALPHABET {
      var i :| 0 <= i < |ALPHABET| && ALPHABET[i] == c;
      if i < 16 { FirstHalf(i); } else { SecondHalf(i); }
    }
  }

  lemma FirstHalf(d: nat)
    requires d < 16
    ensures ALPHABET[d] == Symbol(d)
  {}

  lemma SecondHalf(d: nat)
    requires 16 <= d < 32
    ensures ALPHABET[d] == Symbol(d)
  {}

  // ------------------------------------------------------------------------
  // Forty-bit groups
  // ------------------------------------------------------------------------

  /** Five bytes and eight five-bit symbols hold the same forty bits. */
  lemma GroupsMatch()
    ensures Pow(256, 5) == Pow(32, 8)
  {}

  function ToSymbols(bs: seq<nat>): (vs: seq<nat>)
    requires |bs| % 5 == 0
    ensures |vs| == |bs| / 5 * 8 && InBase(vs, 32)
    decreases |bs|
  {
    if |bs| == 0 then [] else Digits(Value(bs[..5], 256), 32, 8) + ToSymbols(bs[5..])
  }

  function ToBytes(vs: seq<nat>): (bs: seq<nat>)
    requires |vs| % 8 == 0
    ensures |bs| == |vs| / 8 * 5 && InBase(bs, 256)
    decreases |vs|
  {
    if |vs| == 0 then [] else Digits(Value(vs[..8], 32), 256, 5) + ToBytes(vs[8..])
  }

  lemma GroupToSymbols(g: seq<nat>)
    requires |g| == 5 && InBase(g, 256)
    ensures Digits(Value(Digits(Value(g, 256), 32, 8), 32), 256, 5) == g
  {
    GroupsMatch();
    ValueBound(g, 256);
    ValueOfDigits(Value(g, 256), 32, 8);
    DigitsOfValue(g, 256);
  }

  lemma GroupToBytes(g: seq<nat>)
    requires |g| == 8 && InBase(g, 32)
    ensures Digits(Value(Digits(Value(g, 32), 256, 5), 256), 32, 8) == g
  {
    GroupsMatch();
    ValueBound(g, 32);
    ValueOfDigits(Value(g, 32), 256, 5);
    DigitsOfValue(g, 32);
  }

  lemma {:induction false} BytesRoundTrip(bs: seq<nat>)
    requires |bs| % 5 == 0 && InBase(bs, 256)
    ensures ToBytes(ToSymbols(bs)) == bs
    decreases |bs|
  {
    hide Digits, Value;
    if |bs| > 0 {
      var group := Digits(Value(bs[..5], 256), 32, 8);
      assert ToSymbols(bs)[..8] == group && ToSymbols(bs)[8..] == ToSymbols(bs[5..]);
      GroupToSymbols(bs[..5]);
      BytesRoundTrip(bs[5..]);
      assert bs == bs[..5] + bs[5..];
    }
  }

  lemma {:induction false} SymbolsRoundTrip(vs: seq<nat>)
    requires |vs| % 8 == 0 && InBase(vs, 32)
    ensures ToSymbols(ToBytes(vs)) == vs
    decreases |vs|
  {
    hide Digits, Value;
    if |vs| > 0 {
      var group := Digits(Value(vs[..8], 32), 256, 5);
      assert ToBytes(vs)[..5] == group && ToBytes(vs)[5..] == ToBytes(vs[8..]);
      GroupToBytes(vs[..8]);
      SymbolsRoundTrip(vs[8..]);
      assert vs == vs[..8] + vs[8..];
    }
  }

  // ------------------------------------------------------------------------
  // Addresses
  // ------------------------------------------------------------------------

  function Encode32(bs: seq<byte>): (s: string)
    requires |bs| % 5 == 0
    ensures |s| == |bs| / 5 * 8
  {
    Spell(ToSymbols(bs))
  }

  function Decode32(s: string): (r: Option<seq<byte>>)
    requires |s| % 8 == 0
    ensures r.Some? ==> |r.value| == |s| / 8 * 5
  {
    if Spelled(s) then Some(ToBytes(Unspell(s))) else None
  }

  /** The 35 bytes an address carries. */
  function Payload(key: Pubkey, sum: Checksum): (bs: seq<byte>)
    ensures |bs| == 35 && bs[..32] == key && bs[32] == sum(key).0 && bs[33] == sum(key).1 && bs[34] == VERSION
  {
    key + [sum(key).0, sum(key).1, VERSION]
  }

  function PubkeyToOnion(key: Pubkey, sum: Checksum): string {
    Encode32(Payload(key, sum)) + SUFFIX
  }

  /** The address without its suffix, lowercased. */
  function Address(onion: string): string { StripSuffix(Lower(onion), SUFFIX) }

  function OnionToPubkey(onion: string, sum: Checksum): Result<Pubkey, OnionError> {
    var addr := Address(onion);
    if |addr| != 56 then Err(NotV3)
    else
      var decoded := Decode32(addr);
      if decoded.None? then Err(BadChar)
      else if |decoded.value| != 35 then Err(WrongSize)
      else
        var key: Pubkey := decoded.value[..32];
        if decoded.value[34] != VERSION then Err(WrongVersion)
        else if decoded.value[32..34] != [sum(key).0, sum(key).1] then Err(ChecksumMismatch)
        else Ok(key)
  }

  lemma Encode32RoundTrip(bs: seq<byte>)
    requires |bs| % 5 == 0
    ensures Decode32(Encode32(bs)) == Some(bs)
  {
    BytesRoundTrip(bs);
    SpellingRoundTrip(ToSymbols(bs));
  }

  lemma Decode32RoundTrip(s: string)
    requires |s| % 8 == 0 && Decode32(s).Some?
    ensures Encode32(Decode32(s).value) == s
  {
    SymbolsRoundTrip(Unspell(s));
    UnspellingRoundTrip(s);
  }

  /** The size error cannot occur: 56 symbols always carry 35 bytes. */
  lemma SizeAlwaysRight(onion: string, sum: Checksum)
    ensures OnionToPubkey(onion, sum) != Err(WrongSize)
  {}

  /** The first two errors: not 56 symbols, and a symbol outside the alphabet. */
  lemma AddressShape(onion: string, sum: Checksum)
    ensures var r := OnionToPubkey(onion, sum); var addr := Address(onion);
            && (r == Err(NotV3) <==> |addr| != 56)
            && (r == Err(BadChar) <==> |addr| == 56 && exists i :: 0 <= i < 56 && addr[i] !in ALPHABET)
  {
    hide Address, ToBytes, Unspell;
    var addr := Address(onion);
    forall i | 0 <= i < |addr| ensures SymbolValue(addr[i]).Some? <==> addr[i] in ALPHABET { SymbolsAreTheAlphabet(0, addr[i]); }
    hide SymbolValue;
  }

  /** What an address spells, byte by byte: it decodes to a key exactly when its 35 bytes are the
      key, its checksum and 3; another version is noticed before another checksum. */
  lemma AddressBytes(onion: string, sum: Checksum)
    requires |Address(onion)| == 56 && Decode32(Address(onion)).Some?
    ensures var r := OnionToPubkey(onion, sum); var bs := Decode32(Address(onion)).value; var key: Pubkey := bs[..32];
            && (r == Ok(key) <==> bs == key + [sum(key).0, sum(key).1, 3])
            && (r == Err(WrongVersion) <==> bs[34] != 3)
            && (r == Err(ChecksumMismatch) <==> bs[34] == 3 && (bs[32], bs[33]) != sum(key))
  {
    hide Address, Decode32;
    var bs := Decode32(Address(onion)).value;
    var key: Pubkey := bs[..32];
    assert bs == bs[..32] + [bs[32], bs[33], bs[34]];
    assert bs[32..34] == [bs[32], bs[33]];
    var full := key + [sum(key).0, sum(key).1, 3];
    assert full[32] == sum(key).0 && full[33] == sum(key).1 && full[34] == 3;
  }

  /** A published example: the five bytes of "fooba" (section 10 of RFC 4648, lowercase). */
  lemma KnownGroup()
    ensures Encode32([102, 111, 111, 98, 97]) == "mzxw6ytb"
  {
    var g: seq<nat>, ds: seq<nat> := [102, 111, 111, 98, 97], [12, 25, 23, 22, 30, 24, 19, 1];
    assert g[..5] == g && g[5..] == [] && ToSymbols([]) == [];
    FiveBytes(102, 111, 111, 98, 97);
    EightDigits(Value(g, 256));
    assert ToSymbols(g) == ds + [] == ds;
    var text := "mzxw6ytb";
    forall i | 0 <= i < 8 ensures Symbol(ds[i]) == text[i] {}
    assert Spell(ds) == text;
  }

  lemma FiveBytes(a: nat, b: nat, c: nat, d: nat, e: nat)
    ensures Value([a, b, c, d, e], 256) == ((((a * 256) + b) * 256 + c) * 256 + d) * 256 + e
  {
    assert [a, b, c, d, e][..4] == [a, b, c, d] && [a, b, c, d][..3] == [a, b, c];
    assert [a, b, c][..2] == [a, b] && [a, b][..1] == [a] && [a][..0] == [];
    assert Value([a], 256) == a;
    assert Value([a, b], 256) == 256 * a + b;
    assert Value([a, b, c], 256) == 256 * (256 * a + b) + c;
  }

  lemma EightDigits(v: nat)
    requires v == 439956234849
    ensures Digits(v, 32, 8) == [12, 25, 23, 22, 30, 24, 19, 1]
  {
    assert Digits(12, 32, 1) == [12];
    assert Digits(409, 32, 2) == [12, 25];
    assert Digits(13111, 32, 3) == [12, 25, 23];
    assert Digits(419574, 32, 4) == [12, 25, 23, 22];
  }

  /** Encoded text is lowercase already and keeps its shape when read back. */
  lemma EncodedAddress(key: Pubkey, sum: Checksum)
    ensures Address(PubkeyToOnion(key, sum)) == Encode32(Payload(key, sum))
  {}

  /** Encoding then decoding returns the key. */
  lemma DecodeEncode(key: Pubkey, sum: Checksum)
    ensures OnionToPubkey(PubkeyToOnion(key, sum), sum) == Ok(key)
  {
    hide Address, Encode32, Decode32;
    var bs := Payload(key, sum);
    EncodedAddress(key, sum);
    Encode32RoundTrip(bs);
    assert bs[32..34] == [sum(key).0, sum(key).1];
  }

  /** A decoded address spells out exactly the payload of its key. */
  lemma DecodedIsPayload(onion: string, sum: Checksum)
    requires OnionToPubkey(onion, sum).Ok?
    ensures Decode32(Address(onion)) == Some(Payload(OnionToPubkey(onion, sum).value, sum))
  {
    hide Address, Decode32;
    var bs := Decode32(Address(onion)).value;
    var key: Pubkey := bs[..32];
    assert bs[32] == bs[32..34][0] && bs[33] == bs[32..34][1];
    assert bs == Payload(key, sum);
  }

  /** Decoding then encoding gives the address's own lowercase form with its suffix. */
  lemma EncodeDecode(onion: string, sum: Checksum)
    requires OnionToPubkey(onion, sum).Ok?
    ensures PubkeyToOnion(OnionToPubkey(onion, sum).value, sum) == Address(onion) + ".onion"
    ensures Lower(onion) == Address(onion) || Lower(onion) == Address(onion) + ".onion"
  {
    Suffixed(onion);
    hide Address, Encode32, Decode32, Payload;
    DecodedIsPayload(onion, sum);
    Decode32RoundTrip(Address(onion));
  }

  lemma Suffixed(onion: string)
    ensures Lower(onion) == Address(onion) || Lower(onion) == Address(onion) + SUFFIX
  {
    var low := Lower(onion);
    if |low| >= |SUFFIX| { assert low == low[..|low| - |SUFFIX|] + low[|low| - |SUFFIX|..]; }
  }

  /** One canonical address per key: an address decodes to a key exactly when its lowercase
      form, suffix completed, is that key's encoding. */
  lemma DecodesIff(onion: string, key: Pubkey, sum: Checksum)
    ensures OnionToPubkey(onion, sum) == Ok(key) <==> Address(onion) + ".onion" == PubkeyToOnion(key, sum)
  {
    hide Address, Encode32, Payload, PubkeyToOnion, OnionToPubkey;
    if OnionToPubkey(onion, sum) == Ok(key) {
      EncodeDecode(onion, sum);
    }
    if Address(onion) + SUFFIX == PubkeyToOnion(key, sum) {
      DecodeEncode(key, sum);
      SameAddress(onion, key, sum);
    }
  }

  lemma SameAddress(onion: string, key: Pubkey, sum: Checksum)
    requires Address(onion) + SUFFIX == PubkeyToOnion(key, sum)
    ensures OnionToPubkey(onion, sum) == OnionToPubkey(PubkeyToOnion(key, sum), sum)
  {
    hide Encode32, Payload;
    EncodedAddress(key, sum);
    var body := Encode32(Payload(key, sum));
    assert Address(onion) == (Address(onion) + SUFFIX)[..|Address(onion) + SUFFIX| - |SUFFIX|];
    assert body == (body + SUFFIX)[..|body + SUFFIX| - |SUFFIX|];
  }
}
