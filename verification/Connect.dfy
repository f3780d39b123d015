/** `Client::connect`: spend one slot, prove once, and offer the same framed envelope to the
    candidates in order until one answers. */
module Connect {
  import opened Common
  import opened AckFraming
  import opened CursorFile
  import SlotAllocator

  type Gateway = string

  datatype ProofRequest = ProofRequest(identity: string, target: string, nonce: string, epoch: nat, limit: nat)

  datatype ProofInput = ProofInput(request: ProofRequest, messageId: nat)

  /** The members of an acknowledgement the client looks at. */
  datatype Ack = Ack(ok: Option<bool>, err: Option<string>)

  datatype RefusalKind = PayloadLimit | Other

  datatype LinkError = DialFailed | WriteFailed | Frame(error: FrameError) | TimedOut | BadJson | BadShape

  datatype Attempt = Attempt(gateway: Gateway, dialSucceeded: bool, error: Option<LinkError>)

  /** What the network does with one candidate: the dial fails, or the write stops after
      `accepted` bytes, or the whole envelope is written and `replies` arrive before the
      acknowledgement deadline. */
  datatype Link = NoDial | WriteStops(accepted: nat) | Replies(replies: seq<Read>)

  datatype Outcome =
    | NoGateways
    | SlotError(slot: SlotAllocator.Error)
    | SlotOutOfRange(messageId: nat, limit: nat)
    | ProveError
    | Connected(gateway: Gateway, ack: Ack, early: Bytes, attempts: seq<Attempt>)
    | Refused(gateway: Gateway, kind: RefusalKind, ack: Ack, attempts: seq<Attempt>)
    | AllCandidatesFailed(attempts: seq<Attempt>)

  /** Everything one call did: proofs built, bytes sent per dialled candidate, outcome. */
  datatype Trace = Trace(proofs: seq<ProofInput>, sent: seq<Bytes>, outcome: Outcome)

  const REASON_PAYLOAD_LIMIT: string := "payload-limit"

  predicate Accepts(ack: Ack) { ack.ok.Some? && ack.ok.value }

  function KindOf(ack: Ack): RefusalKind {
    if ack.err == Some(REASON_PAYLOAD_LIMIT) then PayloadLimit else Other
  }

  /** `exchange_ack` under its timeout: the bytes that left, and the acknowledgement. */
  function Exchange(wire: Bytes, link: Link, parse: Bytes -> Option<Ack>): (Bytes, Result<(Ack, Bytes), LinkError>) {
    match link
    case NoDial => ([], Err(DialFailed))
    case WriteStops(n) => (if n < |wire| then wire[..n] else wire, Err(WriteFailed))
    case Replies(replies) =>
      match Unframe(replies, [])
      case Waiting => (wire, Err(TimedOut))
      case Failed(e) => (wire, Err(Frame(e)))
      case Line(line, early) =>
        match parse(line)
        case None => (wire, Err(BadJson))
        case Some(ack) => (wire, if ack.ok.None? then Err(BadShape) else Ok((ack, early)))
  }

  predicate Answers(wire: Bytes, link: Link, parse: Bytes -> Option<Ack>) {
    Exchange(wire, link, parse).1.Ok?
  }

  /** The loop over candidates. `attempts` follow the candidate list up to the first that
      answers; only failures precede it; an answer is terminal, accepted or refused. */
  method TryCandidates(gateways: seq<Gateway>, links: seq<Link>, wire: Bytes, parse: Bytes -> Option<Ack>)
      returns (sent: seq<Bytes>, outcome: Outcome)
    requires |links| == |gateways|
    ensures Offered(gateways, links, wire, parse, sent, outcome)
  {
    hide Unframe;
    sent := [];
    var attempts: seq<Attempt> := [];
    for i := 0 to |gateways|
      invariant |attempts| == i && sent == SentTo(links, wire, parse, i)
      invariant forall k :: 0 <= k < i ==> FailedAttempt(gateways[k], links[k], wire, parse, attempts[k])
    {
      var (bytes, reply) := Exchange(wire, links[i], parse);
      if links[i] != NoDial {
        sent := sent + [bytes];
      }
      match reply {
        case Ok((ack, early)) =>
          attempts := attempts + [Attempt(gateways[i], true, None)];
          assert links[i].Replies? && ack.ok.Some?;
          return sent, if Accepts(ack) then Connected(gateways[i], ack, early, attempts)
                       else Refused(gateways[i], KindOf(ack), ack, attempts);
        case Err(error) =>
          attempts := attempts + [Attempt(gateways[i], false, Some(error))];
      }
    }
    outcome := AllCandidatesFailed(attempts);
  }

  /** What the first `n` candidates were sent, those that could not be dialled left out. */
  function SentTo(links: seq<Link>, wire: Bytes, parse: Bytes -> Option<Ack>, n: nat): seq<Bytes>
    requires n <= |links|
  {
    if n == 0 then []
    else
      var before := SentTo(links, wire, parse, n - 1);
      if links[n - 1] == NoDial then before else before + [Exchange(wire, links[n - 1], parse).0]
  }

  /** The outcome of offering `wire` to the candidates in order, and the bytes that left. */
  predicate Offered(gateways: seq<Gateway>, links: seq<Link>, wire: Bytes, parse: Bytes -> Option<Ack>, sent: seq<Bytes>,
                    outcome: Outcome)
    requires |links| == |gateways|
  {
    && (outcome.AllCandidatesFailed? || outcome.Connected? || outcome.Refused?)
    && FollowsCandidates(gateways, links, wire, parse, outcome)
    && sent == SentTo(links, wire, parse, |outcome.attempts|)
  }

  /** The attempt records the failure of this candidate. */
  predicate FailedAttempt(gateway: Gateway, link: Link, wire: Bytes, parse: Bytes -> Option<Ack>, a: Attempt) {
    var reply := Exchange(wire, link, parse).1;
    reply.Err? && a == Attempt(gateway, false, Some(reply.error))
  }

  predicate FollowsCandidates(gateways: seq<Gateway>, links: seq<Link>, wire: Bytes, parse: Bytes -> Option<Ack>,
                              outcome: Outcome)
    requires |links| == |gateways|
  {
    match outcome
    case AllCandidatesFailed(attempts) =>
      && |attempts| == |gateways|
      && (forall k :: 0 <= k < |attempts| ==> FailedAttempt(gateways[k], links[k], wire, parse, attempts[k]))
    case Connected(gateway, ack, early, attempts) =>
      && StopsAt(gateways, links, wire, parse, attempts)
      && gateway == gateways[|attempts| - 1] && Accepts(ack)
      && Exchange(wire, links[|attempts| - 1], parse).1 == Ok((ack, early))
    case Refused(gateway, kind, ack, attempts) =>
      && StopsAt(gateways, links, wire, parse, attempts)
      && gateway == gateways[|attempts| - 1] && ack.ok.Some? && !Accepts(ack) && kind == KindOf(ack)
      && Exchange(wire, links[|attempts| - 1], parse).1.value.0 == ack
    case _ => false
  }

  /** Failures on every candidate but the last attempted, which answered. */
  predicate StopsAt(gateways: seq<Gateway>, links: seq<Link>, wire: Bytes, parse: Bytes -> Option<Ack>,
                    attempts: seq<Attempt>)
    requires |links| == |gateways|
  {
    && 0 < |attempts| <= |gateways|
    && (forall k :: 0 <= k < |attempts| - 1 ==> FailedAttempt(gateways[k], links[k], wire, parse, attempts[k]))
    && attempts[|attempts| - 1] == Attempt(gateways[|attempts| - 1], true, None)
    && Answers(wire, links[|attempts| - 1], parse)
  }

  /** `connect` under the `CrashSafe` policy, on the cursor path it allocates from. `polls` and
      `io` are what the file system does to the allocation; `prove` is the prover and envelope
      serialisation as one partial function. `entry` is the path as the call found it and
      `slot` what its allocation returned. */
  method Connect(path: CursorPath, gateways: seq<Gateway>, request: ProofRequest, polls: seq<Poll>, io: Io, links: seq<Link>,
                 prove: ProofInput -> Option<Bytes>, parse: Bytes -> Option<Ack>)
      returns (t: Trace, ghost entry: World, ghost slot: SlotAllocator.Outcome)
    requires |links| == |gateways|
    modifies path
    ensures |gateways| == 0 ==> t == Trace([], [], NoGateways) && path.Now() == old(path.Now())
    ensures entry == old(path.Now()) || exists k :: 0 <= k < |polls| && entry == polls[k].after
    ensures |gateways| > 0 ==> Spends(entry, path.Now(), Record(gateways, request, links, prove, parse, t), slot)
    ensures !t.outcome.SlotOutOfRange?
  {
    hide Reaches, FollowsCandidates, SentTo;
    entry, slot := path.Now(), Err(SlotAllocator.Unavailable);
    if |gateways| == 0 {
      return Trace([], [], NoGateways), entry, slot;
    }
    var burned;
    burned, entry := path.Allocate(request.epoch, request.limit, polls, io);
    slot := burned;
    if burned.Err? {
      return Trace([], [], SlotError(burned.error)), entry, slot;
    }
    var messageId: nat := burned.value;
    SlotAllocator.DecideAdvances(entry.visible, request.epoch, request.limit);
    if messageId >= request.limit {
      return Trace([], [], SlotOutOfRange(messageId, request.limit)), entry, slot;
    }
    var input := ProofInput(request, messageId);
    var built := prove(input);
    if built.None? {
      return Trace([input], [], ProveError), entry, slot;
    }
    var sent, outcome := TryCandidates(gateways, links, built.value, parse);
    t := Trace([input], sent, outcome);
  }

  /** What a call with candidates does with its allocation: a failed one ends it; a slot is
      proved exactly once, below the limit; nothing is sent without the proof, and the bytes
      sent are those of the one envelope it produced, to the candidates attempted. */
  predicate Faithful(gateways: seq<Gateway>, request: ProofRequest, slot: SlotAllocator.Outcome, links: seq<Link>,
                     prove: ProofInput -> Option<Bytes>, parse: Bytes -> Option<Ack>, t: Trace)
    requires |links| == |gateways|
  {
    match slot
    case Err(error) => t == Trace([], [], SlotError(error))
    case Ok(messageId) =>
      && messageId < request.limit && t.proofs == [ProofInput(request, messageId)]
      && match prove(t.proofs[0])
         case None => t.sent == [] && t.outcome == ProveError
         case Some(wire) => Offered(gateways, links, wire, parse, t.sent, t.outcome)
  }

  /** The call fails as a whole exactly when no candidate answers; the attempts cover the
      whole candidate list exactly when none but possibly the last answers. */
  lemma AllFailIff(gateways: seq<Gateway>, links: seq<Link>, wire: Bytes, parse: Bytes -> Option<Ack>, sent: seq<Bytes>,
                   outcome: Outcome)
    requires |links| == |gateways| > 0 && Offered(gateways, links, wire, parse, sent, outcome)
    ensures outcome.AllCandidatesFailed? <==> forall k :: 0 <= k < |links| ==> !Answers(wire, links[k], parse)
    ensures |outcome.attempts| == |gateways| <==> forall k :: 0 <= k < |links| - 1 ==> !Answers(wire, links[k], parse)
  {
    hide Exchange;
    var n := |outcome.attempts| - 1;
    assert !outcome.AllCandidatesFailed? ==> Answers(wire, links[n], parse);
    forall k | 0 <= k < n ensures !Answers(wire, links[k], parse) {
      assert FailedAttempt(gateways[k], links[k], wire, parse, outcome.attempts[k]);
    }
    if outcome.AllCandidatesFailed? {
      assert FailedAttempt(gateways[n], links[n], wire, parse, outcome.attempts[n]);
    }
  }

  /** A link answers exactly when its replies frame a line that parses to an acknowledgement
      saying whether it is ok. */
  lemma AnswersIff(wire: Bytes, link: Link, parse: Bytes -> Option<Ack>)
    ensures Answers(wire, link, parse) <==>
            && link.Replies? && Unframe(link.replies, []).Line?
            && var ack := parse(Unframe(link.replies, []).line);
            ack.Some? && ack.value.ok.Some?
  {
    hide Unframe;
  }

  /** What each kind of answer means: connected on `ok: true` and only then, refused on
      `ok: false`, over the payload limit exactly when the gateway says so; the
      acknowledgement is the one framed by the last candidate attempted, and what followed
      its newline is handed on. */
  lemma AnswerMeans(gateways: seq<Gateway>, links: seq<Link>, wire: Bytes, parse: Bytes -> Option<Ack>, sent: seq<Bytes>,
                    outcome: Outcome)
    requires |links| == |gateways| && Offered(gateways, links, wire, parse, sent, outcome)
    ensures outcome.Connected? ==> outcome.ack.ok == Some(true)
    ensures outcome.Refused? ==> outcome.ack.ok == Some(false) && (outcome.kind.PayloadLimit? <==> outcome.ack.err == Some("payload-limit"))
    ensures outcome.Connected? || outcome.Refused? ==>
              var n := |outcome.attempts| - 1;
              && 0 <= n < |links| && outcome.gateway == gateways[n] && links[n].Replies?
              && var f := Unframe(links[n].replies, []);
              && f.Line? && parse(f.line) == Some(outcome.ack)
              && (outcome.Connected? ==> outcome.early == f.early)
  {
    hide Unframe, SentTo;
  }

  /** What leaves on a link, and the error of one that does not answer. */
  lemma LinkFailures(wire: Bytes, link: Link, parse: Bytes -> Option<Ack>)
    ensures var (bytes, reply) := Exchange(wire, link, parse);
            && (link.NoDial? ==> bytes == [] && reply == Err(DialFailed))
            && (link.WriteStops? ==> bytes <= wire && (|bytes| == link.accepted || bytes == wire) && reply == Err(WriteFailed))
            && (link.Replies? ==>
                && bytes == wire
                && var f := Unframe(link.replies, []);
                && (f.Waiting? ==> reply == Err(TimedOut))
                && (f.Failed? ==> reply == Err(Frame(f.error)))
                && (f.Line? && parse(f.line).None? ==> reply == Err(BadJson))
                && (f.Line? && parse(f.line).Some? && parse(f.line).value.ok.None? ==> reply == Err(BadShape)))
  {
    hide Unframe;
  }

  /** One connect call: what it was given, and what it did. */
  datatype Record = Record(gateways: seq<Gateway>, request: ProofRequest, links: seq<Link>,
                           prove: ProofInput -> Option<Bytes>, parse: Bytes -> Option<Ack>, trace: Trace)

  /** The call took the path from `entry` to `now` by exactly one allocation, run from its
      start to its end, and did with the result what `Faithful` says. */
  ghost predicate Spends(entry: World, now: World, r: Record, slot: SlotAllocator.Outcome) {
    && Reaches(Moment(entry, r.request.epoch, r.request.limit, SlotAllocator.Start),
               Moment(now, r.request.epoch, r.request.limit, SlotAllocator.Done(slot)))
    && Served(r, slot)
  }

  ghost predicate Served(r: Record, slot: SlotAllocator.Outcome) {
    && |r.links| == |r.gateways| && |r.gateways| > 0
    && Faithful(r.gateways, r.request, slot, r.links, r.prove, r.parse, r.trace)
  }

  // ------------------------------------------------------------------------
  // Many connect calls on one cursor
  // ------------------------------------------------------------------------

  /** Call `i` of the allocator is the allocation of this connect call, and is over. */
  ghost predicate Drives(sys: SlotAllocator.System, i: nat, r: Record) {
    && i < |sys.calls| && sys.calls[i].pc.Done?
    && sys.calls[i].epoch == r.request.epoch && sys.calls[i].limit == r.request.limit
    && Served(r, sys.calls[i].pc.result)
  }

  /** The path as a crowd of allocator calls leaves it for the next one. */
  function View(crowd: SlotAllocator.System): World {
    World(if crowd.lock.Held? then SlotAllocator.Held(-1) else SlotAllocator.Free, crowd.visible, crowd.disk)
  }

  /** Call `i` is still to begin, with this request. */
  predicate About(crowd: SlotAllocator.System, i: nat, r: Record) {
    i < |crowd.calls| && crowd.calls[i] == SlotAllocator.Call(r.request.epoch, r.request.limit, SlotAllocator.Start)
  }

  /** A connect call that got a slot builds its one proof for it, and no other allocation,
      before or after it, in any continuation, returns that slot; its allocation is one call
      of the crowd. */
  lemma ConnectSpendsOneSlot(init: SlotAllocator.System, past: seq<SlotAllocator.Step>, i: nat, r: Record, now: World,
                             slot: SlotAllocator.Outcome)
      returns (run: seq<SlotAllocator.Step>)
    requires SlotAllocator.Init(init) && About(SlotAllocator.Exec(init, past), i, r)
    requires Spends(View(SlotAllocator.Exec(init, past)), now, r, slot) && slot.Ok?
    ensures var t := SlotAllocator.Exec(init, past + run);
            && Drives(t, i, r) && OthersUnmoved(SlotAllocator.Exec(init, past), t, i)
            && t.visible == now.visible && t.disk == now.disk
    ensures r.trace.proofs == [ProofInput(r.request, slot.value)] && OnlyCall(init, past + run, i, r.request.epoch, slot.value)
  {
    hide Reaches, OnlyCall, OthersUnmoved, Offered, SlotAllocator.Exec;
    run := AllocatedSlotIsUnique(init, past, i, r.request.epoch, r.request.limit, now, slot.value);
  }

  /** Across every run of connect calls that share a cursor, with any number of other
      allocations, deaths, failures and power losses between them, two calls never send
      envelopes for the same (epoch, slot), and one call sends pieces of a single envelope. */
  lemma NoEnvelopeReusesASlot(init: SlotAllocator.System, past: seq<SlotAllocator.Step>, i: nat, a: Record,
                              between: seq<SlotAllocator.Step>, j: nat, b: Record, now: World, slot: SlotAllocator.Outcome)
    requires SlotAllocator.Init(init)
    requires Drives(SlotAllocator.Exec(init, past), i, a) && a.trace.sent != []
    requires About(SlotAllocator.Exec(init, past + between), j, b)
    requires Spends(View(SlotAllocator.Exec(init, past + between)), now, b, slot) && b.trace.sent != []
    ensures |a.trace.proofs| == 1 == |b.trace.proofs|
    ensures var p, q := a.trace.proofs[0], b.trace.proofs[0];
            (p.request.epoch, p.messageId) != (q.request.epoch, q.messageId)
    ensures OneEnvelope(a.trace.sent) && OneEnvelope(b.trace.sent)
  {
    hide Reaches, Offered, SlotAllocator.Exec;
    SlotAllocator.ExecConcat(init, past, between);
    SlotAllocator.ReturnedForever(SlotAllocator.Exec(init, past), between, i);
    var run := ConnectSpendsOneSlot(init, past + between, j, b, now, slot);
    var t := SlotAllocator.Exec(init, past + between + run);
    assert past + between + run + [] == past + between + run;
    assert SlotAllocator.Returned(t, i);
    SentInPieces(a, SlotAllocator.Exec(init, past).calls[i].pc.result);
    SentInPieces(b, slot);
  }

  /** The same under every interleaving of the two allocations with each other and with
      everyone else's: connect calls driven by different allocator calls spend different
      slots. */
  lemma InterleavedCallsDiffer(init: SlotAllocator.System, steps: seq<SlotAllocator.Step>, i: nat, a: Record, j: nat, b: Record)
    requires SlotAllocator.Init(init) && i != j
    requires Drives(SlotAllocator.Exec(init, steps), i, a) && Drives(SlotAllocator.Exec(init, steps), j, b)
    requires a.trace.proofs != [] && b.trace.proofs != []
    ensures |a.trace.proofs| == 1 == |b.trace.proofs|
    ensures var p, q := a.trace.proofs[0], b.trace.proofs[0];
            (p.request.epoch, p.messageId) != (q.request.epoch, q.messageId)
  {
    hide Offered, SlotAllocator.Exec;
    SlotAllocator.NoSlotTwice(init, steps, i, j);
  }

  /** Of any two byte strings sent, one is a prefix of the other. */
  ghost predicate OneEnvelope(sent: seq<Bytes>) {
    forall k, l :: 0 <= k < |sent| && 0 <= l < |sent| ==> sent[k] <= sent[l] || sent[l] <= sent[k]
  }

  /** Every byte string sent is a prefix of the one envelope. */
  lemma {:induction false} SentPrefixes(links: seq<Link>, wire: Bytes, parse: Bytes -> Option<Ack>, n: nat)
    requires n <= |links|
    ensures forall k :: 0 <= k < |SentTo(links, wire, parse, n)| ==> SentTo(links, wire, parse, n)[k] <= wire
  {
    if n > 0 { SentPrefixes(links, wire, parse, n - 1); }
  }

  lemma SentInPieces(r: Record, slot: SlotAllocator.Outcome)
    requires Served(r, slot)
    ensures OneEnvelope(r.trace.sent)
  {
    if slot.Ok? && r.prove(r.trace.proofs[0]).Some? {
      var wire, sent := r.prove(r.trace.proofs[0]).value, r.trace.sent;
      SentPrefixes(r.links, wire, r.parse, |r.trace.outcome.attempts|);
      forall k, l | 0 <= k < |sent| && 0 <= l < |sent| ensures sent[k] <= sent[l] || sent[l] <= sent[k] {
        PrefixesNest(wire, sent[k], sent[l]);
      }
    }
  }

  lemma PrefixesNest(wire: Bytes, a: Bytes, b: Bytes)
    requires a <= wire && b <= wire
    ensures a <= b || b <= a
  {}
}
