/** The adaptive paging loop of `fetch_members`: ask for at most `chunk` blocks at a time,
    halve the chunk on a range error, stop at the target block. All block numbers are u64
    and additions saturate. The answers of the node are an arbitrary finite list; a run
    that has used them all up is still fetching. */
module Paging {
  import opened Common
  import opened Leaves
  import MT = MembershipTree

  const FIRST_CHUNK: nat := 10000
  const MIN_CHUNK: nat := 8

  datatype Answer = Page(logs: seq<Log>) | NotAnArray | RangeError | OtherError

  datatype Progress = Fetching(cursor: nat, chunk: nat) | Done | Failed

  /** Where the loop stands, the block ranges accepted so far, their logs, and how often
      the chunk has been halved. */
  datatype Fetch = Fetch(progress: Progress, pages: seq<(nat, nat)>, logs: seq<Log>, halvings: nat)

  function SatAdd(a: nat, b: nat): nat { if a + b > U64_MAX then U64_MAX else a + b }

  function Min(a: nat, b: nat): nat { if a < b then a else b }

  function Halve(chunk: nat): nat { if chunk / 2 < MIN_CHUNK then MIN_CHUNK else chunk / 2 }

  function Begin(from: nat, to: nat): Fetch {
    Fetch(if from > to then Done else Fetching(from, FIRST_CHUNK), [], [], 0)
  }

  function Step(f: Fetch, to: nat, a: Answer): Fetch {
    match f.progress
    case Fetching(cursor, chunk) =>
      if chunk == 0 then f
      else
        var end := Min(to, SatAdd(cursor, chunk - 1));
        (match a
         case Page(logs) =>
           var next := SatAdd(end, 1);
           Fetch(if next <= to then Fetching(next, chunk) else Done, f.pages + [(cursor, end)], f.logs + logs, f.halvings)
         case RangeError =>
           if chunk > MIN_CHUNK then f.(progress := Fetching(cursor, Halve(chunk)), halvings := f.halvings + 1)
           else f.(progress := Failed)
         case _ => f.(progress := Failed))
    case _ => f
  }

  function Run(from: nat, to: nat, answers: seq<Answer>): Fetch
    decreases |answers|
  {
    if |answers| == 0 then Begin(from, to)
    else Step(Run(from, to, answers[..|answers| - 1]), to, answers[|answers| - 1])
  }

  /** The loop itself. */
  method FetchLogs(from: nat, to: nat, answers: seq<Answer>) returns (f: Fetch)
    ensures f == Run(from, to, answers)
  {
    if from > to {
      DoneSticks(from, to, answers, 0);
      assert answers[..0] == [];
      return Fetch(Done, [], [], 0);
    }
    var cursor: nat, chunk: nat, halvings: nat := from, FIRST_CHUNK, 0;
    var pages: seq<(nat, nat)>, logs: seq<Log> := [], [];
    for i := 0 to |answers|
      invariant cursor <= to && chunk >= MIN_CHUNK
      invariant Run(from, to, answers[..i]) == Fetch(Fetching(cursor, chunk), pages, logs, halvings)
    {
      assert answers[..i + 1][..i] == answers[..i] && answers[..i + 1][i] == answers[i];
      var end := Min(to, SatAdd(cursor, chunk - 1));
      match answers[i] {
        case Page(page) =>
          pages, logs := pages + [(cursor, end)], logs + page;
          cursor := SatAdd(end, 1);
          if cursor > to {
            DoneSticks(from, to, answers, i + 1);
            return Fetch(Done, pages, logs, halvings);
          }
        case RangeError =>
          if chunk <= MIN_CHUNK {
            DoneSticks(from, to, answers, i + 1);
            return Fetch(Failed, pages, logs, halvings);
          }
          chunk, halvings := Halve(chunk), halvings + 1;
        case NotAnArray =>
          DoneSticks(from, to, answers, i + 1);
          return Fetch(Failed, pages, logs, halvings);
        case OtherError =>
          DoneSticks(from, to, answers, i + 1);
          return Fetch(Failed, pages, logs, halvings);
      }
    }
    assert answers[..|answers|] == answers;
    f := Fetch(Fetching(cursor, chunk), pages, logs, halvings);
  }

  lemma {:induction false} DoneSticks(from: nat, to: nat, answers: seq<Answer>, n: nat)
    requires n <= |answers| && !Run(from, to, answers[..n]).progress.Fetching?
    ensures Run(from, to, answers) == Run(from, to, answers[..n])
    decreases |answers| - n
  {
    if n == |answers| {
      assert answers[..n] == answers;
    } else {
      assert answers[..n + 1][..n] == answers[..n];
      DoneSticks(from, to, answers, n + 1);
    }
  }

  // ------------------------------------------------------------------------
  // What every run keeps
  // ------------------------------------------------------------------------

  /** Ranges that start at `from`, follow one another without gap or overlap and stop just
      before `next`. */
  ghost predicate Tiles(pages: seq<(nat, nat)>, from: nat, next: nat) {
    if |pages| == 0 then from == next
    else
      var last := pages[|pages| - 1];
      last.0 <= last.1 && last.1 + 1 == next && Tiles(pages[..|pages| - 1], from, last.0)
  }

  /** The chunk after `n` halvings. */
  function ChunkAfter(n: nat): nat {
    if n == 0 then FIRST_CHUNK else Halve(ChunkAfter(n - 1))
  }

  lemma {:induction false} ElevenHalvings(n: nat)
    ensures ChunkAfter(n) >= MIN_CHUNK
    ensures ChunkAfter(n) > MIN_CHUNK <==> n < 11
  {
    if n > 12 {
      ElevenHalvings(n - 1);
    } else {
      FirstHalvings();
      LastHalvings();
      hide ChunkAfter;
    }
  }

  lemma FirstHalvings()
    ensures ChunkAfter(0) == 10000 && ChunkAfter(1) == 5000 && ChunkAfter(2) == 2500 && ChunkAfter(3) == 1250
    ensures ChunkAfter(4) == 625 && ChunkAfter(5) == 312 && ChunkAfter(6) == 156
  {}

  lemma LastHalvings()
    ensures ChunkAfter(7) == 78 && ChunkAfter(8) == 39 && ChunkAfter(9) == 19 && ChunkAfter(10) == 9
    ensures ChunkAfter(11) == 8 && ChunkAfter(12) == 8
  {}

  /** The pages tile the blocks up to the cursor, the chunk is determined by the halvings,
      and every answer used has advanced the cursor or halved the chunk. */
  ghost predicate Progressing(f: Fetch, from: nat, to: nat, used: nat) {
    && f.halvings <= 11
    && (f.progress.Done? ==> Tiles(f.pages, from, to + 1))
    && (f.progress.Fetching? ==>
        && f.progress.chunk == ChunkAfter(f.halvings)
        && from <= f.progress.cursor <= to
        && Tiles(f.pages, from, f.progress.cursor)
        && used <= (f.progress.cursor - from) + f.halvings)
  }

  lemma {:induction false} RunProgresses(from: nat, to: nat, answers: seq<Answer>)
    requires from <= to < U64_MAX
    ensures Progressing(Run(from, to, answers), from, to, |answers|)
    decreases |answers|
  {
    if |answers| > 0 {
      var n := |answers| - 1;
      RunProgresses(from, to, answers[..n]);
      StepProgresses(Run(from, to, answers[..n]), from, to, answers[n], n);
    }
  }

  lemma StepProgresses(f: Fetch, from: nat, to: nat, a: Answer, used: nat)
    requires from <= to < U64_MAX && Progressing(f, from, to, used)
    ensures Progressing(Step(f, to, a), from, to, used + 1)
  {
    ElevenHalvings(f.halvings);
    if f.progress.Fetching? && a.Page? {
      var g := Step(f, to, a);
      assert g.pages[..|g.pages| - 1] == f.pages;
    }
  }

  /** What ends a fetch early: an answer that is not an array, any other error, or a range error
      once the chunk has been halved eleven times. */
  lemma FetchFailsIff(f: Fetch, from: nat, to: nat, a: Answer, used: nat)
    requires Progressing(f, from, to, used) && f.progress.Fetching?
    ensures Step(f, to, a).progress.Failed? <==> a.NotAnArray? || a.OtherError? || (a.RangeError? && f.halvings == 11)
    ensures a.RangeError? && f.halvings < 11 ==>
              Step(f, to, a) == f.(progress := Fetching(f.progress.cursor, ChunkAfter(f.halvings + 1)), halvings := f.halvings + 1)
  {
    ElevenHalvings(f.halvings);
  }

  /** A page asks for as many blocks as the chunk allows and the target leaves. */
  lemma PageIsFull(f: Fetch, from: nat, to: nat, logs: seq<Log>, used: nat)
    requires from <= to < U64_MAX && Progressing(f, from, to, used) && f.progress.Fetching?
    ensures var g := Step(f, to, Page(logs)); var cursor := f.progress.cursor; var left := to - cursor + 1;
            var size := if f.progress.chunk < left then f.progress.chunk else left;
            && g.pages == f.pages + [(cursor, cursor + size - 1)] && g.logs == f.logs + logs && g.halvings == f.halvings
            && g.progress == if size == left then Done else Fetching(cursor + size, f.progress.chunk)
  {
    ElevenHalvings(f.halvings);
  }

  lemma {:induction false} TilesCover(pages: seq<(nat, nat)>, from: nat, next: nat, b: nat)
    requires Tiles(pages, from, next) && from <= b < next
    ensures exists k :: 0 <= k < |pages| && pages[k].0 <= b <= pages[k].1
    decreases |pages|
  {
    if |pages| > 0 {
      var n := |pages| - 1;
      if b < pages[n].0 {
        TilesCover(pages[..n], from, pages[n].0, b);
        var k :| 0 <= k < n && pages[..n][k].0 <= b <= pages[..n][k].1;
        assert pages[k].0 <= b <= pages[k].1;
      } else {
        assert pages[n].0 <= b <= pages[n].1;
      }
    }
  }

  lemma {:induction false} TilesDisjoint(pages: seq<(nat, nat)>, from: nat, next: nat, j: nat, k: nat)
    requires Tiles(pages, from, next) && j < k < |pages|
    ensures from <= pages[j].0 <= pages[j].1 < pages[k].0 <= pages[k].1 < next
    decreases |pages|
  {
    var n := |pages| - 1;
    var front := pages[..n];
    if k < n {
      TilesDisjoint(front, from, pages[n].0, j, k);
    } else {
      TilesBound(front, from, pages[n].0, j);
    }
  }

  lemma {:induction false} TilesBound(pages: seq<(nat, nat)>, from: nat, next: nat, j: nat)
    requires Tiles(pages, from, next) && j < |pages|
    ensures from <= pages[j].0 <= pages[j].1 < next
    decreases |pages|
  {
    var n := |pages| - 1;
    TilesStart(pages[..n], from, pages[n].0);
    if j < n { TilesBound(pages[..n], from, pages[n].0, j); }
  }

  lemma {:induction false} TilesStart(pages: seq<(nat, nat)>, from: nat, next: nat)
    requires Tiles(pages, from, next)
    ensures from <= next
    decreases |pages|
  {
    if |pages| > 0 { TilesStart(pages[..|pages| - 1], from, pages[|pages| - 1].0); }
  }

  /** Whatever the pattern of range errors, a run that finishes has accepted pages that
      visit every block of [from, to] exactly once. */
  lemma EveryBlockOnce(from: nat, to: nat, answers: seq<Answer>, b: nat)
    requires from <= b <= to < U64_MAX && Run(from, to, answers).progress.Done?
    ensures var pages := Run(from, to, answers).pages;
            && (exists k :: 0 <= k < |pages| && pages[k].0 <= b <= pages[k].1)
            && (forall j, k :: 0 <= j < k < |pages| ==> !(pages[j].0 <= b <= pages[j].1 && pages[k].0 <= b <= pages[k].1))
            && (forall k :: 0 <= k < |pages| ==> from <= pages[k].0 <= pages[k].1 <= to)
  {
    RunProgresses(from, to, answers);
    var pages := Run(from, to, answers).pages;
    TilesCover(pages, from, to + 1, b);
    forall j, k | 0 <= j < k < |pages| ensures pages[j].1 < pages[k].0 { TilesDisjoint(pages, from, to + 1, j, k); }
    forall k | 0 <= k < |pages| ensures from <= pages[k].0 <= pages[k].1 <= to { TilesBound(pages, from, to + 1, k); }
  }

  /** The loop ends: after as many answers as there are blocks, plus at most 11 halvings, it
      has finished or failed. */
  lemma PagingEnds(from: nat, to: nat, answers: seq<Answer>)
    requires from <= to < U64_MAX && |answers| > to - from + 11
    ensures !Run(from, to, answers).progress.Fetching?
    ensures Run(from, to, answers).halvings <= 11
  {
    RunProgresses(from, to, answers);
  }

  /** At the last u64 block the cursor saturates on it: the loop fetches that block for ever
      and no run finishes. */
  lemma {:induction false} LastBlockNeverEnds(from: nat, answers: seq<Answer>)
    requires from <= U64_MAX
    ensures !Run(from, U64_MAX, answers).progress.Done?
    ensures Run(from, U64_MAX, answers).progress.Fetching? ==> Run(from, U64_MAX, answers).progress.cursor <= U64_MAX
    decreases |answers|
  {
    if |answers| > 0 { LastBlockNeverEnds(from, answers[..|answers| - 1]); }
  }

  function Pages(n: nat): (r: seq<Answer>)
    ensures |r| == n && forall i :: 0 <= i < n ==> r[i] == Page([])
  {
    seq(n, i => Page([]))
  }

  lemma {:induction false} PagesNeverFail(from: nat, to: nat, n: nat)
    requires from <= to < U64_MAX
    ensures !Run(from, to, Pages(n)).progress.Failed?
  {
    if n > 0 {
      PagesNeverFail(from, to, n - 1);
      assert Pages(n)[..n - 1] == Pages(n - 1);
      RunProgresses(from, to, Pages(n - 1));
    }
  }

  /** Some answers let the loop finish exactly when the target is below the last u64 block. */
  lemma CanFinishIff(from: nat, to: nat)
    requires from <= to <= U64_MAX
    ensures (exists answers :: Run(from, to, answers).progress.Done?) <==> to < U64_MAX
  {
    if to < U64_MAX {
      var answers := Pages(to - from + 12);
      PagingEnds(from, to, answers);
      PagesNeverFail(from, to, to - from + 12);
      assert Run(from, to, answers).progress.Done?;
    } else {
      forall answers ensures !Run(from, to, answers).progress.Done? { LastBlockNeverEnds(from, answers); }
    }
  }

  // ------------------------------------------------------------------------
  // What the pages bring
  // ------------------------------------------------------------------------

  /** The logs of each block. */
  type Chain = nat -> seq<Log>

  /** The logs of the blocks from `a` up to but not including `b`. */
  function LogsIn(chain: Chain, a: nat, b: nat): seq<Log>
    requires a <= b
  {
    if a == b then [] else LogsIn(chain, a, b - 1) + chain(b - 1)
  }

  lemma {:induction false} LogsConcat(chain: Chain, a: nat, b: nat, c: nat)
    requires a <= b <= c
    ensures LogsIn(chain, a, c) == LogsIn(chain, a, b) + LogsIn(chain, b, c)
    decreases c
  {
    if b < c { LogsConcat(chain, a, b, c - 1); }
  }

  /** A page holds the logs of the blocks it was asked for, in any order. */
  ghost predicate HonestAnswer(chain: Chain, f: Fetch, to: nat, a: Answer) {
    f.progress.Fetching? && f.progress.cursor <= to <= U64_MAX && f.progress.chunk > 0 && a.Page? ==>
      multiset(a.logs) == multiset(LogsIn(chain, f.progress.cursor, PageEnd(f.progress, to) + 1))
  }

  function PageEnd(p: Progress, to: nat): (end: nat)
    requires p.Fetching? && p.cursor <= to <= U64_MAX && p.chunk > 0
    ensures p.cursor <= end <= to
  {
    Min(to, SatAdd(p.cursor, p.chunk - 1))
  }

  ghost predicate Honest(chain: Chain, from: nat, to: nat, answers: seq<Answer>) {
    forall n :: 0 <= n < |answers| ==> HonestAnswer(chain, Run(from, to, answers[..n]), to, answers[n])
  }

  /** Up to which block the logs gathered reach. */
  function Reached(f: Fetch, to: nat): nat {
    match f.progress
    case Fetching(cursor, _) => cursor
    case _ => to + 1
  }

  /** The logs gathered so far are those of the blocks passed so far. */
  ghost predicate Gathered(chain: Chain, from: nat, to: nat, f: Fetch) {
    !f.progress.Failed? ==> from <= Reached(f, to) && multiset(f.logs) == multiset(LogsIn(chain, from, Reached(f, to)))
  }

  lemma StepGathers(chain: Chain, f: Fetch, from: nat, to: nat, a: Answer, used: nat)
    requires from <= to < U64_MAX && Progressing(f, from, to, used)
    requires Gathered(chain, from, to, f) && HonestAnswer(chain, f, to, a)
    ensures Gathered(chain, from, to, Step(f, to, a))
  {
    hide LogsIn, Tiles;
    ElevenHalvings(f.halvings);
    if f.progress.Fetching? && a.Page? {
      LogsConcat(chain, from, f.progress.cursor, PageEnd(f.progress, to) + 1);
    }
  }

  lemma {:induction false} GathersTheChain(chain: Chain, from: nat, to: nat, answers: seq<Answer>)
    requires from <= to < U64_MAX && Honest(chain, from, to, answers)
    ensures Gathered(chain, from, to, Run(from, to, answers))
    decreases |answers|
  {
    hide HonestAnswer, Progressing;
    if |answers| > 0 {
      var n := |answers| - 1;
      var f := Run(from, to, answers[..n]);
      forall k | 0 <= k < n ensures HonestAnswer(chain, Run(from, to, answers[..n][..k]), to, answers[..n][k]) {
        assert answers[..n][..k] == answers[..k] && answers[..n][k] == answers[k];
      }
      GathersTheChain(chain, from, to, answers[..n]);
      RunProgresses(from, to, answers[..n]);
      StepGathers(chain, f, from, to, answers[n], n);
    }
  }

  /** Whatever the pattern of range errors and however the node orders a page, a fetch that
      finishes rebuilds the members and the root of the chain's own logs, provided their
      (block, logIndex) keys are distinct. */
  lemma RangeErrorsAreIrrelevant(chain: Chain, from: nat, to: nat, answers: seq<Answer>, hex: Hex, topics: Topics, zero: nat,
                                 toField: nat -> MT.Field, h: MT.Hash, depth: nat)
    requires from <= to < U64_MAX && Honest(chain, from, to, answers) && Run(from, to, answers).progress.Done?
    requires DistinctKeys(hex, LogsIn(chain, from, to + 1))
    ensures Rebuilt(hex, topics, zero, toField, h, depth, Run(from, to, answers).logs)
         == Rebuilt(hex, topics, zero, toField, h, depth, LogsIn(chain, from, to + 1))
  {
    GathersTheChain(chain, from, to, answers);
    PageOrderIsIrrelevant(hex, topics, zero, LogsIn(chain, from, to + 1), Run(from, to, answers).logs);
  }

  /** `fetch_members` from the block range on: fetch every page, then rebuild. Nothing is
      rebuilt when the fetch failed or the node has not answered it to the end. */
  method FetchMembers(from: nat, to: nat, answers: seq<Answer>, hex: Hex, topics: Topics, zero: nat,
                      toField: nat -> MT.Field, h: MT.Hash, depth: nat)
      returns (r: Option<Result<Discovered, Error>>)
    requires depth >= 1
    ensures r == if Run(from, to, answers).progress.Done?
                 then Some(Rebuilt(hex, topics, zero, toField, h, depth, Run(from, to, answers).logs)) else None
  {
    hide Rebuilt, Run;
    var f := FetchLogs(from, to, answers);
    if !f.progress.Done? {
      return None;
    }
    var discovered := Reconstruct(f.logs, hex, topics, zero, toField, h, depth);
    r := Some(discovered);
  }
}
