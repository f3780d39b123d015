/** Membership discovery by event replay: logs are ordered by (block, logIndex), then
    folded into an append-only member list with zero-in-place removals. `hex` stands for
    the hexadecimal parser and `topics` for the two sets of event signatures. */
module Leaves {
  import opened Common
  import opened Sorting
  import MT = MembershipTree

  type Hex = string -> Option<nat>

  /** A log as it comes from the node: fields may be missing or of the wrong type. */
  datatype Log = Log(block: Option<string>, index: Option<string>, topics: Option<seq<Option<string>>>)

  datatype Topics = Topics(registered: set<string>, removed: set<string>)

  datatype Error = MissingTopics | MissingTopic0 | MissingCommitment | InvalidCommitment

  datatype Event = Event(topic: string, commitment: nat)

  /** `members[i]` is a commitment or the zero value; `live` maps a commitment to its index. */
  datatype Replay = Replay(members: seq<nat>, live: map<nat, nat>)

  // ------------------------------------------------------------------------
  // Order and decoding
  // ------------------------------------------------------------------------

  function Number(hex: Hex, text: Option<string>): nat {
    if text.Some? && hex(text.value).Some? then hex(text.value).value else 0
  }

  /** Strict order by (blockNumber, logIndex); an unreadable number counts as zero. */
  predicate Before(hex: Hex, a: Log, b: Log) {
    || Number(hex, a.block) < Number(hex, b.block)
    || (Number(hex, a.block) == Number(hex, b.block) && Number(hex, a.index) < Number(hex, b.index))
  }

  function Ordered(hex: Hex, logs: seq<Log>): seq<Log> {
    SortBy(logs, (a, b) => Before(hex, a, b))
  }

  function Decode(hex: Hex, log: Log): Result<Event, Error> {
    if log.topics.None? then Err(MissingTopics)
    else
      var t := log.topics.value;
      if |t| == 0 || t[0].None? then Err(MissingTopic0)
      else if |t| == 1 || t[1].None? then Err(MissingCommitment)
      else if hex(t[1].value).None? then Err(InvalidCommitment)
      else Ok(Event(Lower(t[0].value), hex(t[1].value).value))
  }

  // ------------------------------------------------------------------------
  // Replay
  // ------------------------------------------------------------------------

  function Step(topics: Topics, zero: nat, s: Replay, e: Event): Replay {
    if e.topic in topics.registered then
      if e.commitment in s.live then s
      else Replay(s.members + [e.commitment], s.live[e.commitment := |s.members|])
    else if e.topic in topics.removed && e.commitment in s.live && s.live[e.commitment] < |s.members| then
      Replay(s.members[s.live[e.commitment] := zero], s.live - {e.commitment})
    else s
  }

  function ReplayAll(hex: Hex, topics: Topics, zero: nat, logs: seq<Log>): Result<Replay, Error>
    decreases |logs|
  {
    if |logs| == 0 then Ok(Replay([], map[]))
    else
      var s := ReplayAll(hex, topics, zero, logs[..|logs| - 1]);
      if s.Err? then s
      else
        var e := Decode(hex, logs[|logs| - 1]);
        if e.Err? then Err(e.error) else Ok(Step(topics, zero, s.value, e.value))
  }

  /** The reference semantics: the set of commitments registered and not removed since. */
  function Registered(hex: Hex, topics: Topics, logs: seq<Log>): set<nat>
    decreases |logs|
  {
    if |logs| == 0 then {}
    else
      var before := Registered(hex, topics, logs[..|logs| - 1]);
      var e := Decode(hex, logs[|logs| - 1]);
      if e.Err? then before
      else if e.value.topic in topics.registered then before + {e.value.commitment}
      else if e.value.topic in topics.removed then before - {e.value.commitment}
      else before
  }

  /** Every commitment ever appended, in order: the member list before any removal. */
  function Appended(hex: Hex, topics: Topics, logs: seq<Log>): seq<nat>
    decreases |logs|
  {
    if |logs| == 0 then []
    else
      var before := Appended(hex, topics, logs[..|logs| - 1]);
      var e := Decode(hex, logs[|logs| - 1]);
      if e.Ok? && e.value.topic in topics.registered
         && e.value.commitment !in Registered(hex, topics, logs[..|logs| - 1])
      then before + [e.value.commitment] else before
  }

  /** `live` is an injective index of the registered commitments into the member list, and
      every other position holds the zero value. */
  ghost predicate Faithful(zero: nat, registered: set<nat>, appended: seq<nat>, s: Replay) {
    && s.live.Keys == registered
    && |s.members| == |appended|
    && (forall c :: c in s.live ==> s.live[c] < |s.members| && s.members[s.live[c]] == c && appended[s.live[c]] == c)
    && (forall c, d :: c in s.live && d in s.live && s.live[c] == s.live[d] ==> c == d)
    && (forall i :: 0 <= i < |s.members| ==> s.members[i] == zero || Alive(s, i))
  }

  ghost predicate Alive(s: Replay, i: nat) {
    exists c :: c in s.live && s.live[c] == i
  }

  lemma RegisterKeepsFaithful(zero: nat, registered: set<nat>, appended: seq<nat>, s: Replay, c: nat)
    requires Faithful(zero, registered, appended, s) && c !in s.live
    ensures Faithful(zero, registered + {c}, appended + [c], Replay(s.members + [c], s.live[c := |s.members|]))
  {
    var t := Replay(s.members + [c], s.live[c := |s.members|]);
    forall i | 0 <= i < |t.members| ensures t.members[i] == zero || Alive(t, i) {
      if i < |s.members| && s.members[i] != zero {
        var d :| d in s.live && s.live[d] == i;
        assert d in t.live && t.live[d] == i;
      } else if i == |s.members| {
        assert c in t.live && t.live[c] == i;
      }
    }
  }

  lemma RemoveKeepsFaithful(zero: nat, registered: set<nat>, appended: seq<nat>, s: Replay, c: nat)
    requires Faithful(zero, registered, appended, s) && c in s.live
    ensures Faithful(zero, registered - {c}, appended, Replay(s.members[s.live[c] := zero], s.live - {c}))
  {
    var t := Replay(s.members[s.live[c] := zero], s.live - {c});
    forall i | 0 <= i < |t.members| ensures t.members[i] == zero || Alive(t, i) {
      if i != s.live[c] && s.members[i] != zero {
        var d :| d in s.live && s.live[d] == i;
        assert d in t.live && t.live[d] == i;
      }
    }
  }

  /** Replay refines the set semantics, for every log sequence that decodes. */
  lemma {:induction false} ReplayIsFaithful(hex: Hex, topics: Topics, zero: nat, logs: seq<Log>)
    requires ReplayAll(hex, topics, zero, logs).Ok?
    ensures Faithful(zero, Registered(hex, topics, logs), Appended(hex, topics, logs), ReplayAll(hex, topics, zero, logs).value)
    decreases |logs|
  {
    if |logs| > 0 {
      var front := logs[..|logs| - 1];
      ReplayIsFaithful(hex, topics, zero, front);
      var s := ReplayAll(hex, topics, zero, front).value;
      var e := Decode(hex, logs[|logs| - 1]).value;
      var r, a := Registered(hex, topics, front), Appended(hex, topics, front);
      if e.topic in topics.registered {
        if e.commitment in s.live {
          assert r + {e.commitment} == r;
        } else {
          RegisterKeepsFaithful(zero, r, a, s, e.commitment);
        }
      } else if e.topic in topics.removed {
        if e.commitment in s.live {
          RemoveKeepsFaithful(zero, r, a, s, e.commitment);
        } else {
          assert r - {e.commitment} == r;
        }
      }
    }
  }

  /** `t` is `s` with some members removed and others appended behind all of its own. */
  ghost predicate Extends(zero: nat, s: Replay, t: Replay) {
    && |s.members| <= |t.members|
    && (forall i :: 0 <= i < |s.members| ==> t.members[i] == s.members[i] || t.members[i] == zero)
    && (forall c :: c in t.live ==> (c in s.live && t.live[c] == s.live[c]) || t.live[c] >= |s.members|)
  }

  /** Indices are never reused, however many logs follow: the append-only list only grows at
      its end, a position keeps its value until it becomes zero and then stays zero, and every
      index assigned later is past all earlier ones. */
  lemma {:induction false} IndicesAreNeverReused(hex: Hex, topics: Topics, zero: nat, logs: seq<Log>, more: seq<Log>)
    requires ReplayAll(hex, topics, zero, logs + more).Ok?
    ensures ReplayAll(hex, topics, zero, logs).Ok?
    ensures Appended(hex, topics, logs) <= Appended(hex, topics, logs + more)
    ensures Extends(zero, ReplayAll(hex, topics, zero, logs).value, ReplayAll(hex, topics, zero, logs + more).value)
    decreases |more|
  {
    hide Decode;
    if |more| == 0 {
      assert logs + more == logs;
    } else {
      var n := |more| - 1;
      var all := logs + more;
      assert all[..|all| - 1] == logs + more[..n];
      IndicesAreNeverReused(hex, topics, zero, logs, more[..n]);
    }
  }

  // ------------------------------------------------------------------------
  // Page order does not matter
  // ------------------------------------------------------------------------

  predicate DistinctKeys(hex: Hex, logs: seq<Log>) {
    forall i, j :: 0 <= i < j < |logs| ==> Before(hex, logs[i], logs[j]) || Before(hex, logs[j], logs[i])
  }

  /** With distinct (block, logIndex) keys, the order in which the pages delivered the logs
      changes nothing: neither the member list, nor the live index, nor the error. */
  lemma PageOrderIsIrrelevant(hex: Hex, topics: Topics, zero: nat, a: seq<Log>, b: seq<Log>)
    requires multiset(a) == multiset(b) && DistinctKeys(hex, a)
    ensures Ordered(hex, a) == Ordered(hex, b)
    ensures ReplayAll(hex, topics, zero, Ordered(hex, a)) == ReplayAll(hex, topics, zero, Ordered(hex, b))
  {
    var less := (x, y) => Before(hex, x, y);
    forall i, j | 0 <= i < |a| && 0 <= j < |a| && a[i] != a[j] ensures less(a[i], a[j]) || less(a[j], a[i]) {
      if i < j { assert Before(hex, a[i], a[j]) || Before(hex, a[j], a[i]); }
      if j < i { assert Before(hex, a[j], a[i]) || Before(hex, a[i], a[j]); }
    }
    SortForgetsOrder(a, b, less);
  }

  // ------------------------------------------------------------------------
  // The newest word decides
  // ------------------------------------------------------------------------

  /** `a` does not come after `b` on the chain. */
  ghost predicate NotAfter(hex: Hex, a: Log, b: Log) {
    Number(hex, a.block) < Number(hex, b.block)
    || (Number(hex, a.block) == Number(hex, b.block) && Number(hex, a.index) <= Number(hex, b.index))
  }

  /** The replayed order is the chain's: block numbers, and log indices within a block, never
      decrease along it, and no log is lost or repeated. */
  lemma OrderedAscends(hex: Hex, logs: seq<Log>)
    ensures multiset(Ordered(hex, logs)) == multiset(logs)
    ensures forall i, j :: 0 <= i < j < |Ordered(hex, logs)| ==> NotAfter(hex, Ordered(hex, logs)[i], Ordered(hex, logs)[j])
  {
    var less := (x, y) => Before(hex, x, y);
    SortPermutes(logs, less);
    SortSorts(logs, less);
  }

  /** The log has this topic, in any case, and names commitment `c` in its second topic. */
  ghost predicate Says(hex: Hex, log: Log, among: set<string>, c: nat) {
    && log.topics.Some? && |log.topics.value| >= 2 && log.topics.value[0].Some? && log.topics.value[1].Some?
    && Lower(log.topics.value[0].value) in among && hex(log.topics.value[1].value) == Some(c)
  }

  ghost predicate Registers(hex: Hex, topics: Topics, log: Log, c: nat) { Says(hex, log, topics.registered, c) }

  ghost predicate Removes(hex: Hex, topics: Topics, log: Log, c: nat) {
    Says(hex, log, topics.removed - topics.registered, c)
  }

  /** Some registration of `c` has no removal after it. */
  ghost predicate LastWordRegisters(hex: Hex, topics: Topics, logs: seq<Log>, c: nat) {
    exists i :: 0 <= i < |logs| && Registers(hex, topics, logs[i], c)
                && forall j :: i < j < |logs| ==> !Removes(hex, topics, logs[j], c)
  }

  lemma LastWordOfOneMore(hex: Hex, topics: Topics, front: seq<Log>, last: Log, c: nat)
    ensures LastWordRegisters(hex, topics, front + [last], c) <==>
            Registers(hex, topics, last, c) || (LastWordRegisters(hex, topics, front, c) && !Removes(hex, topics, last, c))
  {
    hide Registers, Removes;
    var logs, n := front + [last], |front|;
    assert logs[n] == last && forall k :: 0 <= k < n ==> logs[k] == front[k];
    if LastWordRegisters(hex, topics, front, c) && !Removes(hex, topics, last, c) {
      var i :| 0 <= i < n && Registers(hex, topics, front[i], c) && forall j :: i < j < n ==> !Removes(hex, topics, front[j], c);
      assert Registers(hex, topics, logs[i], c);
    }
  }

  /** Along any list of logs, a commitment is registered exactly when some registration of it
      has no removal after it. */
  lemma {:induction false} RegisteredIff(hex: Hex, topics: Topics, logs: seq<Log>, c: nat)
    ensures c in Registered(hex, topics, logs) <==> LastWordRegisters(hex, topics, logs, c)
    decreases |logs|
  {
    if |logs| > 0 {
      var n := |logs| - 1;
      RegisteredIff(hex, topics, logs[..n], c);
      assert logs == logs[..n] + [logs[n]];
      LastWordOfOneMore(hex, topics, logs[..n], logs[n], c);
      hide LastWordRegisters;
    }
  }

  /** Whatever order the pages delivered the logs in, as long as their keys are distinct: a
      commitment ends up registered exactly when some registration of it comes after every
      removal of it on the chain. */
  lemma NewestWordDecides(hex: Hex, topics: Topics, logs: seq<Log>, c: nat)
    requires DistinctKeys(hex, logs)
    ensures c in Registered(hex, topics, Ordered(hex, logs)) <==>
            exists a :: a in logs && Registers(hex, topics, a, c)
                        && forall b :: b in logs && Removes(hex, topics, b, c) ==> !NotAfter(hex, a, b)
  {
    hide Registers, Removes, Registered, Ordered;
    var r := Ordered(hex, logs);
    OrderedAscends(hex, logs);
    SameLogs(hex, logs);
    RegisteredIff(hex, topics, r, c);
    if c in Registered(hex, topics, r) {
      var i :| 0 <= i < |r| && Registers(hex, topics, r[i], c) && forall j :: i < j < |r| ==> !Removes(hex, topics, r[j], c);
      forall b | b in logs && Removes(hex, topics, b, c) ensures !NotAfter(hex, r[i], b) {
        assert b in r;
        var j :| 0 <= j < |r| && r[j] == b;
        NotBoth(hex, topics, b, c);
        OrderedApart(hex, logs, i, j);
      }
      assert r[i] in logs;
    }
    if a :| a in logs && Registers(hex, topics, a, c) && forall b :: b in logs && Removes(hex, topics, b, c) ==> !NotAfter(hex, a, b) {
      assert a in r;
      var i :| 0 <= i < |r| && r[i] == a;
      forall j | i < j < |r| ensures !Removes(hex, topics, r[j], c) {
        assert r[j] in logs && NotAfter(hex, r[i], r[j]);
      }
    }
  }

  lemma SameLogs(hex: Hex, logs: seq<Log>)
    ensures forall x :: x in Ordered(hex, logs) <==> x in logs
  {
    SortPermutes(logs, (x, y) => Before(hex, x, y));
  }

  lemma NotBoth(hex: Hex, topics: Topics, log: Log, c: nat)
    ensures !(Registers(hex, topics, log, c) && Removes(hex, topics, log, c))
  {}

  lemma OrderedApart(hex: Hex, logs: seq<Log>, i: nat, j: nat)
    requires DistinctKeys(hex, logs) && i < |Ordered(hex, logs)| && j < |Ordered(hex, logs)| && j < i
    ensures !NotAfter(hex, Ordered(hex, logs)[i], Ordered(hex, logs)[j])
  {
    var r := Ordered(hex, logs);
    OrderedAscends(hex, logs);
    KeysDiffer(hex, logs, r);
    assert Before(hex, r[i], r[j]) || Before(hex, r[j], r[i]);
  }

  lemma KeysDiffer(hex: Hex, logs: seq<Log>, r: seq<Log>)
    requires DistinctKeys(hex, logs) && multiset(r) == multiset(logs)
    ensures DistinctKeys(hex, r)
  {
    DistinctLogs(hex, logs);
    PermutationDistinct(logs, r);
    forall i, j | 0 <= i < j < |r| ensures Before(hex, r[i], r[j]) || Before(hex, r[j], r[i]) {
      assert r[i] in multiset(logs) && r[j] in multiset(logs);
      var p :| 0 <= p < |logs| && logs[p] == r[i];
      var q :| 0 <= q < |logs| && logs[q] == r[j];
      assert p != q;
    }
  }

  lemma DistinctLogs(hex: Hex, logs: seq<Log>)
    requires DistinctKeys(hex, logs)
    ensures NoRepeat(logs)
  {
    forall i, j | 0 <= i < j < |logs| ensures logs[i] != logs[j] {
      assert Before(hex, logs[i], logs[j]) || Before(hex, logs[j], logs[i]);
    }
  }

  /** What makes a log unreadable, in the order it is noticed. */
  lemma DecodeFailures(hex: Hex, log: Log)
    ensures var t := log.topics; var d := Decode(hex, log);
            && (d == Err(MissingTopics) <==> t.None?)
            && (d == Err(MissingTopic0) <==> t.Some? && (|t.value| < 1 || t.value[0].None?))
            && (d == Err(MissingCommitment) <==> t.Some? && |t.value| >= 1 && t.value[0].Some? && (|t.value| < 2 || t.value[1].None?))
            && (d.Ok? ==> exists topic :: t.Some? && t.value[0] == Some(topic) && d.value.topic == Lower(topic))
            && (d == Err(InvalidCommitment) || d.Ok? <==>
                t.Some? && |t.value| >= 2 && t.value[0].Some? && t.value[1].Some?)
            && (d.Ok? ==> hex(t.value[1].value) == Some(d.value.commitment))
  {}

  // ------------------------------------------------------------------------
  // reconstruct
  // ------------------------------------------------------------------------

  datatype Discovered = Discovered(members: seq<nat>, liveCount: nat, root: MT.Field)

  function Fields(toField: nat -> MT.Field, members: seq<nat>): (r: seq<MT.Field>)
    ensures |r| == |members| && forall i :: 0 <= i < |members| ==> r[i] == toField(members[i])
  {
    seq(|members|, i requires 0 <= i < |members| => toField(members[i]))
  }

  /** The replay loop over logs already in order. */
  method ReplayLogs(ordered: seq<Log>, hex: Hex, topics: Topics, zero: nat) returns (r: Result<Replay, Error>)
    ensures r == ReplayAll(hex, topics, zero, ordered)
  {
    var state := Replay([], map[]);
    for i := 0 to |ordered|
      invariant ReplayAll(hex, topics, zero, ordered[..i]) == Ok(state)
    {
      assert ordered[..i + 1][..i] == ordered[..i] && ordered[..i + 1][i] == ordered[i];
      var e := Decode(hex, ordered[i]);
      if e.Err? {
        ErrorSticks(hex, topics, zero, ordered, i + 1);
        return Err(e.error);
      }
      state := Step(topics, zero, state, e.value);
    }
    assert ordered[..|ordered|] == ordered;
    r := Ok(state);
  }

  /** What is discovered from the replayed state: the member list, how many are live, and the
      root of the padded tree over them. */
  function Rebuilt(hex: Hex, topics: Topics, zero: nat, toField: nat -> MT.Field, h: MT.Hash, depth: nat, logs: seq<Log>)
      : Result<Discovered, Error>
  {
    var replay := ReplayAll(hex, topics, zero, Ordered(hex, logs));
    if replay.Err? then Err(replay.error)
    else
      var members := replay.value.members;
      Ok(Discovered(members, |Registered(hex, topics, Ordered(hex, logs))|,
                    MT.FullRoot(h, MT.Padded(toField(zero), Fields(toField, members), 0, MT.Pow2(depth)), depth)))
  }

  /** `reconstruct`: sort, replay, and build the tree over the member list. `zero` is the
      decimal form of the tree's zero value and `toField` the reduction of a commitment. */
  method Reconstruct(logs: seq<Log>, hex: Hex, topics: Topics, zero: nat, toField: nat -> MT.Field, h: MT.Hash, depth: nat)
      returns (r: Result<Discovered, Error>)
    requires depth >= 1
    ensures r == Rebuilt(hex, topics, zero, toField, h, depth, logs)
  {
    hide MT.FullRoot, MT.Pow2, ReplayAll, Registered;
    var replay := ReplayLogs(Ordered(hex, logs), hex, topics, zero);
    if replay.Err? {
      return Err(replay.error);
    }
    var state := replay.value;
    ReplayIsFaithful(hex, topics, zero, Ordered(hex, logs));
    var tree := new MT.MerkleTree(h, toField(zero), depth, Fields(toField, state.members));
    MT.RootIsPaddedRoot(tree);
    assert |state.live| == |state.live.Keys|;
    r := Ok(Discovered(state.members, |state.live|, tree.Root()));
  }

  lemma {:induction false} ErrorSticks(hex: Hex, topics: Topics, zero: nat, logs: seq<Log>, n: nat)
    requires n <= |logs| && ReplayAll(hex, topics, zero, logs[..n]).Err?
    ensures ReplayAll(hex, topics, zero, logs) == ReplayAll(hex, topics, zero, logs[..n])
    decreases |logs| - n
  {
    if n == |logs| {
      assert logs[..n] == logs;
    } else {
      assert logs[..n + 1][..n] == logs[..n];
      ErrorSticks(hex, topics, zero, logs, n + 1);
    }
  }

  /** The positions of the member list that no live commitment occupies. */
  ghost function Vacated(s: Replay): set<nat> {
    set i | 0 <= i < |s.members| && !Alive(s, i)
  }

  /** The leaves the replay builds its tree over are those of the append-only list with the
      vacated positions zeroed in place, which is what removing them one by one stores. */
  lemma ReplayLeavesAreRemovals(hex: Hex, topics: Topics, zero: nat, toField: nat -> MT.Field, logs: seq<Log>, gone: seq<nat>)
    requires ReplayAll(hex, topics, zero, logs).Ok?
    requires SeqToSet(gone) == Vacated(ReplayAll(hex, topics, zero, logs).value)
    ensures Fields(toField, ReplayAll(hex, topics, zero, logs).value.members)
         == MT.Zeroed(toField(zero), Fields(toField, Appended(hex, topics, logs)), gone)
  {
    ReplayIsFaithful(hex, topics, zero, logs);
    var s := ReplayAll(hex, topics, zero, logs).value;
    var appended := Appended(hex, topics, logs);
    forall i | 0 <= i < |s.members| ensures s.members[i] == if i in gone then zero else appended[i] {
      assert i in gone <==> i in SeqToSet(gone);
    }
  }
}
