/** The last-known-good directory cache: `resolve_directory` over one cache file, and what
    holds over every sequential run of it. The network is an arbitrary fresh result per call,
    JSON parsing an arbitrary function, and a write may fail and leave anything behind. */
module DirCache {
  import opened Common
  import opened Records
  import opened SignedBytes
  import opened Hex
  import opened Onion
  import opened Verification
  import opened DirectoryTrust

  type u64 = n: nat | n <= U64_MAX

  datatype DemoAdvert = DemoAdvert(port: nat, powBits: nat, limit: nat, contract: string, chain: string,
                                   gateways: seq<string>, onion: Option<string>)

  datatype Document = Document(dir: Directory, demo: Option<DemoAdvert>)

  /** What stays fixed over a run: the pinned signers, and the functions the client trusts. */
  datatype Client = Client(crypto: Crypto, pins: seq<string>, parse: string -> Result<Document, string>, hasPath: bool)

  datatype Refused =
    | Unreachable(message: string)
    | Unparsed(message: string)
    | Rejected(reason: Reason)
    | Rollback(issued: nat, floor: nat)
    | TooStale(issued: nat, age: nat, limit: nat)

  datatype Source = Fresh | Cache

  datatype LoadOutcome = LoadOutcome(doc: Document, source: Source, freshError: Option<Refused>)

  datatype MaxAge = MaxAge(maxAgeMs: Option<u64>, skewMs: u64)

  /** What became of a write: complete, or failed with this left in the file. */
  datatype Write = Written | Left(content: Option<string>)

  /** One call, with everything the outside world decides about it. */
  datatype Call = Call(fetched: Result<string, string>, maxAge: MaxAge, nowMs: u64, write: Write)

  // ------------------------------------------------------------------------
  // One call
  // ------------------------------------------------------------------------

  /** `parse_and_verify_document`. */
  function Accept(c: Client, raw: string): Result<Document, Refused> {
    var doc := c.parse(raw);
    if doc.Err? then Err(Unparsed(doc.error))
    else
      var verdict := WithSigners(c.crypto, doc.value.dir, c.pins);
      if verdict.Err? then Err(Rejected(verdict.error)) else Ok(doc.value)
  }

  /** `read_verified_cache`. */
  function Held(c: Client, file: Option<string>): Option<Document> {
    if !c.hasPath || file.None? then None
    else
      var r := Accept(c, file.value);
      if r.Ok? then Some(r.value) else None
  }

  function Body(raw: string): string {
    if |raw| > 0 && raw[|raw| - 1] == '\n' then raw else raw + "\n"
  }

  function SaturatingSub(a: u64, b: u64): u64 { if a < b then 0 else a - b }

  function SaturatingMul(a: nat, b: nat): u64 { if a * b > U64_MAX then U64_MAX else a * b }

  /** `max + skew` in 64 bits. */
  function AgeLimit(max: u64, skew: u64): u64 { (max + skew) % (U64_MAX + 1) }

  predicate TooOld(age: u64, max: u64, skew: u64) { age > AgeLimit(max, skew) }

  function AgeMs(now: u64, issued: nat): u64 { SaturatingSub(now, SaturatingMul(issued, 1000)) }

  function Floor(held: Option<Document>): nat { if held.Some? then held.value.dir.issued else 0 }

  /** The fresh document, or why it is not used. */
  function Judge(c: Client, held: Option<Document>, call: Call): Result<Document, Refused> {
    if call.fetched.Err? then Err(Unreachable(call.fetched.error))
    else
      var r := Accept(c, call.fetched.value);
      if r.Err? then r
      else
        var issued := r.value.dir.issued;
        if issued < Floor(held) then Err(Rollback(issued, Floor(held)))
        else if call.maxAge.maxAgeMs.None? then r
        else
          var max, skew, age := call.maxAge.maxAgeMs.value, call.maxAge.skewMs, AgeMs(call.nowMs, issued);
          if TooOld(age, max, skew) then Err(TooStale(issued, age, AgeLimit(max, skew))) else r
  }

  function Outcome(c: Client, file: Option<string>, call: Call): Result<LoadOutcome, Refused> {
    var held := Held(c, file);
    var used := Judge(c, held, call);
    if used.Ok? then Ok(LoadOutcome(used.value, Fresh, None))
    else if held.Some? then Ok(LoadOutcome(held.value, Cache, Some(used.error)))
    else Err(used.error)
  }

  function FileAfter(c: Client, file: Option<string>, call: Call): Option<string> {
    if !c.hasPath || Judge(c, Held(c, file), call).Err? then file
    else if call.write.Written? then Some(Body(call.fetched.value))
    else call.write.content
  }

  /** A document stays the same document with a newline at its end. */
  ghost predicate NewlineIgnored(c: Client) {
    forall raw :: c.parse(raw).Ok? ==> c.parse(raw + "\n") == c.parse(raw)
  }

  /** What a complete write stores reads back as the document written. */
  lemma BodyVerifies(c: Client, raw: string)
    requires NewlineIgnored(c) && Accept(c, raw).Ok?
    ensures Accept(c, Body(raw)) == Accept(c, raw)
  {
    hide WithSigners;
  }

  class CacheFile {
    var content: Option<string>

    constructor (content: Option<string>)
      ensures this.content == content
    {
      this.content := content;
    }

    /** `write_cache`, best effort: a complete write of a document that verifies makes it the
        document the cache holds. */
    method WriteCache(c: Client, raw: string, write: Write)
      modifies this
      ensures content == if !c.hasPath then old(content) else if write.Written? then Some(Body(raw)) else write.content
      ensures c.hasPath && write.Written? ==>
                content.Some? && raw <= content.value <= raw + "\n" && content.value[|content.value| - 1] == '\n'
      ensures c.hasPath && write.Written? && NewlineIgnored(c) && Accept(c, raw).Ok? ==>
                Held(c, content) == Some(Accept(c, raw).value)
    {
      if !c.hasPath {
        return;
      }
      content := if write.Written? then Some(Body(raw)) else write.content;
      if NewlineIgnored(c) && Accept(c, raw).Ok? { BodyVerifies(c, raw); }
    }

    /** `resolve_directory`. */
    method ResolveDirectory(c: Client, call: Call) returns (r: Result<LoadOutcome, Refused>)
      modifies this
      ensures r == Outcome(c, old(content), call)
      ensures content == FileAfter(c, old(content), call)
    {
      hide Accept;
      var cached := Held(c, content);
      var floor := Floor(cached);
      var refused: Refused;
      if call.fetched.Ok? {
        var parsed := Accept(c, call.fetched.value);
        if parsed.Ok? {
          var issued := parsed.value.dir.issued;
          if issued < floor {
            refused := Rollback(issued, floor);
          } else if call.maxAge.maxAgeMs.Some? {
            var age := AgeMs(call.nowMs, issued);
            var limit := AgeLimit(call.maxAge.maxAgeMs.value, call.maxAge.skewMs);
            if age > limit {
              refused := TooStale(issued, age, limit);
            } else {
              WriteCache(c, call.fetched.value, call.write);
              return Ok(LoadOutcome(parsed.value, Fresh, None));
            }
          } else {
            WriteCache(c, call.fetched.value, call.write);
            return Ok(LoadOutcome(parsed.value, Fresh, None));
          }
        } else {
          refused := parsed.error;
        }
      } else {
        refused := Unreachable(call.fetched.error);
      }
      r := if cached.Some? then Ok(LoadOutcome(cached.value, Cache, Some(refused))) else Err(refused);
    }
  }

  // ------------------------------------------------------------------------
  // Runs
  // ------------------------------------------------------------------------

  ghost function FileAt(c: Client, file: Option<string>, calls: seq<Call>, n: nat): Option<string>
    requires n <= |calls|
  {
    if n == 0 then file else FileAfter(c, FileAt(c, file, calls, n - 1), calls[n - 1])
  }

  ghost function ResultAt(c: Client, file: Option<string>, calls: seq<Call>, n: nat): Result<LoadOutcome, Refused>
    requires n < |calls|
  {
    Outcome(c, FileAt(c, file, calls, n), calls[n])
  }

  ghost predicate ReliableWrites(calls: seq<Call>) {
    forall i :: 0 <= i < |calls| ==> calls[i].write.Written?
  }

  ghost predicate VerifiedDocument(c: Client, doc: Document) {
    WithSigners(c.crypto, doc.dir, c.pins).Ok?
  }

  /** Fail closed: whatever the file held and whatever became of earlier writes, every
      directory returned verified against the pinned signers. */
  lemma EveryReturnedVerified(c: Client, file: Option<string>, calls: seq<Call>, i: nat)
    requires i < |calls| && ResultAt(c, file, calls, i).Ok?
    ensures VerifiedDocument(c, ResultAt(c, file, calls, i).value.doc)
  {}

  /** A call with a reliable write leaves the cache holding what it returned, and that is
      never older than what the cache held before. */
  lemma CallHoldsWhatItReturns(c: Client, file: Option<string>, call: Call)
    requires c.hasPath && NewlineIgnored(c) && call.write.Written?
    ensures var r := Outcome(c, file, call);
            && (r.Ok? ==> Held(c, FileAfter(c, file, call)) == Some(r.value.doc))
            && (r.Err? ==> FileAfter(c, file, call) == file && Held(c, file).None?)
            && (Held(c, file).Some? ==> r.Ok? && r.value.doc.dir.issued >= Held(c, file).value.dir.issued)
  {}

  /** From one success on, the cache always holds a document at least as recent. */
  lemma {:induction false} HeldSince(c: Client, file: Option<string>, calls: seq<Call>, i: nat, j: nat)
    requires c.hasPath && NewlineIgnored(c) && ReliableWrites(calls)
    requires i < j <= |calls| && ResultAt(c, file, calls, i).Ok?
    ensures Held(c, FileAt(c, file, calls, j)).Some?
    ensures Held(c, FileAt(c, file, calls, j)).value.dir.issued >= ResultAt(c, file, calls, i).value.doc.dir.issued
    decreases j
  {
    hide Outcome, FileAfter, Held;
    CallHoldsWhatItReturns(c, FileAt(c, file, calls, j - 1), calls[j - 1]);
    if i < j - 1 { HeldSince(c, file, calls, i, j - 1); }
  }

  /** Over a whole run with reliable writes: after one success no later call fails, the issue
      times returned never decrease, and the cache holds the document last returned. */
  lemma RunNeverRollsBack(c: Client, file: Option<string>, calls: seq<Call>, i: nat, j: nat)
    requires c.hasPath && NewlineIgnored(c) && ReliableWrites(calls)
    requires i <= j < |calls| && ResultAt(c, file, calls, i).Ok?
    ensures ResultAt(c, file, calls, j).Ok?
    ensures ResultAt(c, file, calls, i).value.doc.dir.issued <= ResultAt(c, file, calls, j).value.doc.dir.issued
    ensures Held(c, FileAt(c, file, calls, j + 1)) == Some(ResultAt(c, file, calls, j).value.doc)
  {
    hide Outcome, FileAfter, Held;
    CallHoldsWhatItReturns(c, FileAt(c, file, calls, j), calls[j]);
    if i < j { HeldSince(c, file, calls, i, j); }
  }

  // ------------------------------------------------------------------------
  // Where reliability is needed
  // ------------------------------------------------------------------------

  ghost predicate CanReturnOlder(c: Client, file: Option<string>, n: nat) {
    exists call :: Outcome(c, file, call).Ok? && Outcome(c, file, call).value.doc.dir.issued < n
  }

  /** The file does not keep anything older than `n` out: it holds a document older than that,
      or it holds none and an older one verifies. */
  ghost predicate FloorLost(c: Client, file: Option<string>, n: nat) {
    if Held(c, file).Some? then Held(c, file).value.dir.issued < n
    else exists raw :: Accept(c, raw).Ok? && Accept(c, raw).value.dir.issued < n
  }

  /** Exactly when a rollback can follow a call: it returned a fresh document, the write of it
      failed, and what that write left behind does not keep older ones out. */
  lemma RollbackCanFollowIff(c: Client, file: Option<string>, call: Call)
    requires c.hasPath && NewlineIgnored(c) && Outcome(c, file, call).Ok?
    ensures var r := Outcome(c, file, call).value;
            CanReturnOlder(c, FileAfter(c, file, call), r.doc.dir.issued) <==>
            r.source.Fresh? && call.write.Left? && FloorLost(c, call.write.content, r.doc.dir.issued)
  {
    hide Accept, CanReturnOlder;
    var r := Outcome(c, file, call).value;
    OlderReturnedIff(c, FileAfter(c, file, call), r.doc.dir.issued);
    if r.source.Fresh? && call.write.Written? { BodyVerifies(c, call.fetched.value); }
  }

  /** Exactly when a call on this file can return something older than `n`. */
  lemma OlderReturnedIff(c: Client, file: Option<string>, n: nat)
    ensures CanReturnOlder(c, file, n) <==> FloorLost(c, file, n)
  {
    hide Held, Accept;
    var noLimit := MaxAge(None, 0);
    if Held(c, file).Some? {
      var call := Call(Err(""), noLimit, 0, Written);
      assert Outcome(c, file, call).value.doc == Held(c, file).value;
    } else {
      forall raw | Accept(c, raw).Ok? && Accept(c, raw).value.dir.issued < n ensures CanReturnOlder(c, file, n) {
        var call := Call(Ok(raw), noLimit, 0, Written);
        assert Outcome(c, file, call).value.doc == Accept(c, raw).value;
      }
    }
  }

  /** A lost write is a rollback waiting to happen: on any two documents that verify, the
      newer returned while its write fails, the older is returned next. */
  lemma LostWriteRollsBack(c: Client, older: string, newer: string)
    requires Accept(c, older).Ok? && Accept(c, newer).Ok?
    requires Accept(c, older).value.dir.issued < Accept(c, newer).value.dir.issued
    ensures var calls := [Call(Ok(newer), MaxAge(None, 0), 0, Left(None)), Call(Ok(older), MaxAge(None, 0), 0, Written)];
            && ResultAt(c, None, calls, 0) == Ok(LoadOutcome(Accept(c, newer).value, Fresh, None))
            && ResultAt(c, None, calls, 1) == Ok(LoadOutcome(Accept(c, older).value, Fresh, None))
  {}

  // A client whose signature scheme accepts everything, and two documents for it.

  function Zeros(n: nat): (bs: seq<byte>)
    ensures |bs| == n
  {
    if n == 0 then [] else [0] + Zeros(n - 1)
  }

  function Key(): string { HexEncode(Zeros(32)) }

  function AnySignature(): string { HexEncode(Zeros(64)) }

  function Sample(issued: nat): Document {
    Document(Directory(1, issued, [], None, Some(AnySignature()), None, None, None), None)
  }

  function Labelled(issued: nat, name: Option<string>): Document {
    Document(Sample(issued).dir.(signer := name), None)
  }

  function SampleParse(raw: string): Result<Document, string> { Ok(Sample(if |raw| > 0 && raw[0] == 'b' then 2 else 1)) }

  function NoChecksum(key: Pubkey): (byte, byte) { (0, 0) }

  predicate Anything(message: string, signature: Signature, key: Pubkey) { true }

  function SampleClient(): Client { Client(Crypto(NoChecksum, Anything), [Key()], SampleParse, true) }

  lemma SampleSigns(d: Directory)
    ensures Signs(SampleClient().crypto, DirectoryBytes(d), Key(), AnySignature())
    ensures Lower(Key()) == Key()
  {
    HexIsLowercase(Zeros(32));
    HexDecodesIff(Key(), Zeros(32));
    HexIsLowercase(Zeros(64));
    HexDecodesIff(AnySignature(), Zeros(64));
    hide HexEncode, HexDecode, DirectoryBytes, Zeros;
  }

  lemma SampleAccepted(issued: nat, name: Option<string>)
    requires name.Some? ==> name.value == Key()
    ensures VerifiedDocument(SampleClient(), Labelled(issued, name))
  {
    var c, d := SampleClient(), Labelled(issued, name).dir;
    SampleSigns(d);
    KeysHaveNoPrefix(c.crypto, DirectoryBytes(d), Key(), AnySignature());
    hide Signs, Key, AnySignature, DirectoryBytes, WithSigners, Zeros;
    assert Key() in c.pins;
    assert SoleSigner(c.crypto, d, c.pins, Key());
    SingleAcceptsIff(c.crypto, d, c.pins);
  }

  /** The prefix decides: one directory is accepted when it names its signer and refused when
      it names it with `0x`. */
  lemma PrefixedLabelWitness()
    ensures VerifiedDocument(SampleClient(), Labelled(1, Some(Key())))
    ensures !VerifiedDocument(SampleClient(), Labelled(1, Some("0x" + Key())))
  {
    hide WithSigners, Key;
    SampleAccepted(1, Some(Key()));
    var d := Labelled(1, Some(Key())).dir;
    PrefixTurnsToRefusal(SampleClient().crypto, d, SampleClient().pins, Key());
    assert d.(signer := Some("0x" + Key())) == Labelled(1, Some("0x" + Key())).dir;
  }

  /** The rollback is real: with a single failed write and everything else in order, a run
      returns issue time 2 and then issue time 1. */
  lemma RollbackHappens()
    ensures var c := SampleClient();
            var calls := [Call(Ok("b"), MaxAge(None, 0), 0, Left(None)), Call(Ok("a"), MaxAge(None, 0), 0, Written)];
            && c.hasPath && NewlineIgnored(c)
            && ResultAt(c, None, calls, 0) == Ok(LoadOutcome(Sample(2), Fresh, None))
            && ResultAt(c, None, calls, 1) == Ok(LoadOutcome(Sample(1), Fresh, None))
  {
    hide WithSigners;
    SampleAccepted(1, None);
    SampleAccepted(2, None);
    LostWriteRollsBack(SampleClient(), "a", "b");
  }

  /** Exactly when a fresh document is used: it verifies, it is not older than what the cache
      holds, and, where a maximum age is set whose sum with the skew fits in 64 bits, it was
      issued (in seconds) no longer than that ago (in milliseconds). */
  lemma FreshUsedIff(c: Client, file: Option<string>, call: Call)
    requires call.maxAge.maxAgeMs.Some? ==> call.maxAge.maxAgeMs.value + call.maxAge.skewMs <= U64_MAX
    ensures var r := Outcome(c, file, call);
            r.Ok? && r.value.source.Fresh? <==>
            && call.fetched.Ok? && Accept(c, call.fetched.value).Ok?
            && var issued := Accept(c, call.fetched.value).value.dir.issued;
            && (Held(c, file).Some? ==> Held(c, file).value.dir.issued <= issued)
            && (call.maxAge.maxAgeMs.Some? ==>
                call.nowMs <= issued * 1000 + call.maxAge.maxAgeMs.value + call.maxAge.skewMs)
    ensures var r := Outcome(c, file, call);
            r.Ok? && r.value.source.Fresh? ==> Ok(r.value.doc) == Accept(c, call.fetched.value) && r.value.freshError.None?
  {
    hide Accept, Held;
  }

  /** When the fresh document is not used, the cache answers if it can, and either way the
      reason is named: unreachable, unparsed or rejected, a rollback, or too old. */
  lemma RefusalNamed(c: Client, file: Option<string>, call: Call)
    requires var r := Outcome(c, file, call); r.Err? || r.value.source.Cache?
    ensures var r := Outcome(c, file, call);
            && (r.Ok? <==> Held(c, file).Some?)
            && (r.Ok? ==> r.value.doc == Held(c, file).value && r.value.freshError.Some?)
            && var why := if r.Ok? then r.value.freshError.value else r.error;
            && (call.fetched.Err? ==> why == Unreachable(call.fetched.error))
            && (call.fetched.Ok? && Accept(c, call.fetched.value).Err? ==> Err(why) == Accept(c, call.fetched.value))
            && (call.fetched.Ok? && Accept(c, call.fetched.value).Ok? ==>
                var issued := Accept(c, call.fetched.value).value.dir.issued;
                if Held(c, file).Some? && issued < Held(c, file).value.dir.issued
                then why == Rollback(issued, Held(c, file).value.dir.issued)
                else why.TooStale? && why.issued == issued)
  {
    hide Accept, Held;
  }

  /** The age guard means what it says, on every age, exactly when `max + skew` fits in 64
      bits; past that the sum wraps and ages well within the bound are refused. */
  lemma AgeGuardExactIff(max: u64, skew: u64)
    ensures (forall age: u64 :: TooOld(age, max, skew) <==> age > max + skew) <==> max + skew <= U64_MAX
  {
    if max + skew > U64_MAX {
      var age: u64 := AgeLimit(max, skew) + 1;
      assert TooOld(age, max, skew) && age <= max + skew;
    }
  }
}
