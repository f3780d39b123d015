/** The cross-session health cache: dial results folded into a per-onion record, seeded into
    a directory's health, bounded by eviction, and what that does to the failover order. */
module Health {
  import opened Common
  import opened Records
  import opened Sorting
  import opened CapsCanon
  import opened CapsMeaning
  import opened Selection
  import opened SpreadSelection

  const FAIL_THRESHOLD: nat := 2
  const MAX_ENTRIES: nat := 512
  const DECAY_MS: nat := 14 * 24 * 60 * 60 * 1000

  datatype HealthEntry = HealthEntry(fails: nat, lastFail: nat, latencyMs: Option<real>, lastSeen: nat)

  type Entries = map<string, HealthEntry>

  const EMPTY_ENTRY: HealthEntry := HealthEntry(0, 0, None, 0)

  /** One dial result, with the onions of the signed directory at that moment. */
  datatype Dial = Dial(known: set<string>, onion: string, ok: bool, latencyMs: Option<real>, nowMs: nat)

  /** The onion with its suffix. */
  function Full(onion: string): (full: string)
    ensures |full| >= 6 && full[|full| - 6..] == ".onion" && (full == onion || full[..|full| - 6] == onion)
    ensures full != onion ==> |onion| < 6 || onion[|onion| - 6..] != ".onion"
  {
    if |onion| >= 6 && onion[|onion| - 6..] == ".onion" then onion else onion + ".onion"
  }

  /** Half away from zero, as `f64::round`. */
  function Round(x: real): real {
    if x >= 0.0 then (x + 0.5).Floor as real else -((0.5 - x).Floor as real)
  }

  function Smoothed(before: Option<real>, latency: Option<real>): Option<real> {
    if latency.None? then before
    else if before.None? then latency
    else Some(Round(0.7 * before.value + 0.3 * latency.value))
  }

  /** A latency is kept when there is no new one, the first one as it is, and after that a
      whole number nearest to seven tenths of the old and three of the new, ties away from 0. */
  lemma LatencySmooths(before: real, latency: real)
    ensures Smoothed(Some(before), None) == Some(before) && Smoothed(None, Some(latency)) == Some(latency) && Smoothed(None, None) == None
    ensures Smoothed(Some(before), Some(latency)).Some?
    ensures var x := (7.0 * before + 3.0 * latency) / 10.0; var r := Smoothed(Some(before), Some(latency)).value;
            Nearest(x, r)
  {
    hide Round, Nearest;
    RoundIsNearest(0.7 * before + 0.3 * latency);
    assert 0.7 * before + 0.3 * latency == (7.0 * before + 3.0 * latency) / 10.0;
  }

  /** `r` is a whole number nearest to `x`, the one away from zero of two. */
  ghost predicate Nearest(x: real, r: real) {
    r.Floor as real == r && x - 0.5 <= r <= x + 0.5 && (r == x - 0.5 ==> x < 0.0) && (r == x + 0.5 ==> x > 0.0)
  }

  lemma RoundIsNearest(x: real)
    ensures Nearest(x, Round(x))
  {
    if x >= 0.0 {
      var n := (x + 0.5).Floor;
      assert n as real <= x + 0.5 < n as real + 1.0;
      assert n as real == Round(x);
    } else {
      var n := (0.5 - x).Floor;
      assert n as real <= 0.5 - x < n as real + 1.0;
      assert (-n) as real == Round(x);
    }
  }

  function Fold(e: HealthEntry, d: Dial): HealthEntry {
    if d.ok then HealthEntry(0, e.lastFail, Smoothed(e.latencyMs, d.latencyMs), d.nowMs)
    else HealthEntry(e.fails + 1, d.nowMs, e.latencyMs, d.nowMs)
  }

  function EntryOf(m: Entries, onion: string): HealthEntry {
    if onion in m then m[onion] else EMPTY_ENTRY
  }

  function Updated(m: Entries, d: Dial): Entries {
    var full := Full(d.onion);
    if full !in d.known then m else m[full := Fold(EntryOf(m, full), d)]
  }

  // ------------------------------------------------------------------------
  // Seeding
  // ------------------------------------------------------------------------

  predicate Expired(e: HealthEntry, now: nat) {
    (if now < e.lastSeen then 0 else now - e.lastSeen) >= DECAY_MS
  }

  /** The record that makes a gateway start as down. */
  predicate Failing(m: Entries, onion: string, now: nat) {
    onion in m && !Expired(m[onion], now) && m[onion].fails >= FAIL_THRESHOLD
  }

  function SeededEntry(m: Entries, g: GatewayEntry, now: nat): GatewayEntry {
    if Failing(m, g.onion, now) then g.(health := "down") else g
  }

  function Seeded(m: Entries, gs: seq<GatewayEntry>, now: nat): (r: seq<GatewayEntry>)
    ensures |r| == |gs| && forall i :: 0 <= i < |gs| ==> r[i] == SeededEntry(m, gs[i], now)
  {
    seq(|gs|, i requires 0 <= i < |gs| => SeededEntry(m, gs[i], now))
  }

  /** The listed onions whose record has expired. */
  ghost function Pruned(m: Entries, gs: seq<GatewayEntry>, now: nat): set<string> {
    set i | 0 <= i < |gs| && gs[i].onion in m && Expired(m[gs[i].onion], now) :: gs[i].onion
  }

  // ------------------------------------------------------------------------
  // Eviction
  // ------------------------------------------------------------------------

  /** Oldest first; the map's key order decides ties, as under a stable sort. */
  predicate Older(a: (string, nat), b: (string, nat)) {
    a.1 < b.1 || (a.1 == b.1 && StrLess(a.0, b.0))
  }

  lemma OlderTotal()
    ensures StrictTotal(Older)
  {
    hide StrLess;
    StrLessTotal();
  }

  /** Every entry dropped comes before every entry kept, by last sighting and then by key. */
  ghost predicate DropsOldest(before: Entries, after: Entries) {
    forall x, y :: x in before && x !in after && y in after && y in before ==>
      before[x].lastSeen < before[y].lastSeen || (before[x].lastSeen == before[y].lastSeen && Lexical(x, y))
  }

  ghost predicate Within(after: Entries, before: Entries) {
    after.Keys <= before.Keys && forall x :: x in after ==> after[x] == before[x]
  }

  // ------------------------------------------------------------------------
  // The cache and the directory it seeds
  // ------------------------------------------------------------------------

  class LoadedDirectory {
    var gateways: seq<GatewayEntry>

    constructor (gateways: seq<GatewayEntry>)
      ensures this.gateways == gateways
    {
      this.gateways := gateways;
    }
  }

  class HealthCache {
    var entries: Entries

    constructor (entries: Entries)
      ensures this.entries == entries
    {
      this.entries := entries;
    }

    method Update(d: Dial)
      modifies this
      ensures entries == Updated(old(entries), d)
    {
      var full := Full(d.onion);
      if full !in d.known {
        return;
      }
      var e := EntryOf(entries, full);
      if !d.ok {
        e := e.(fails := e.fails + 1, lastFail := d.nowMs);
      } else {
        e := e.(fails := 0);
        if d.latencyMs.Some? {
          e := e.(latencyMs := Smoothed(e.latencyMs, d.latencyMs));
        }
      }
      e := e.(lastSeen := d.nowMs);
      entries := entries[full := e];
    }

    /** Marks failing gateways down and drops the expired records of listed ones. */
    method Seed(dir: LoadedDirectory, now: nat)
      modifies this, dir
      ensures dir.gateways == Seeded(old(entries), old(dir.gateways), now)
      ensures entries == old(entries) - Pruned(old(entries), old(dir.gateways), now)
    {
      ghost var m, gs := entries, dir.gateways;
      for i := 0 to |dir.gateways|
        invariant |dir.gateways| == |gs|
        invariant forall j :: 0 <= j < i ==> dir.gateways[j] == SeededEntry(m, gs[j], now)
        invariant forall j :: i <= j < |gs| ==> dir.gateways[j] == gs[j]
        invariant entries == m - Pruned(m, gs[..i], now)
      {
        var g := dir.gateways[i];
        PrunedExtend(m, gs, i, now);
        if g.onion in entries {
          if Expired(entries[g.onion], now) {
            entries := entries - {g.onion};
          } else if entries[g.onion].fails >= FAIL_THRESHOLD {
            dir.gateways := dir.gateways[i := g.(health := "down")];
          }
        }
      }
      assert gs[..|gs|] == gs;
    }

    /** Evicts the oldest entries down to `max`. */
    method Bound(max: nat)
      modifies this
      ensures Within(entries, old(entries)) && DropsOldest(old(entries), entries)
      ensures |entries| == if |old(entries)| <= max then |old(entries)| else max
    {
      hide Within, DropsOldest, Listing, Sorted, Without;
      if |entries| <= max {
        NothingDropped(entries);
        return;
      }
      var sorted := OldestFirst(entries);
      var drop := |entries| - max;
      KeepsNewest(entries, sorted, drop);
      RemoveFirst(sorted, drop);
    }

    /** `save`: bounded first, then written as a whole; without a path nothing happens. */
    method Save(hasPath: bool, writes: bool) returns (written: bool)
      modifies this
      ensures written == (hasPath && writes)
      ensures if hasPath then Within(entries, old(entries)) && DropsOldest(old(entries), entries) && |entries| <= 512
              else entries == old(entries)
    {
      if !hasPath {
        return false;
      }
      Bound(MAX_ENTRIES);
      written := writes;
    }

    method RemoveFirst(sorted: seq<(string, nat)>, drop: nat)
      requires drop <= |sorted|
      modifies this
      ensures entries == Without(old(entries), sorted, drop)
    {
      for i := 0 to drop
        invariant entries == Without(old(entries), sorted, i)
      {
        entries := entries - {sorted[i].0};
      }
    }
  }

  lemma PrunedExtend(m: Entries, gs: seq<GatewayEntry>, i: nat, now: nat)
    requires i < |gs|
    ensures Pruned(m, gs[..i + 1], now) ==
            Pruned(m, gs[..i], now) +
            (if gs[i].onion in m && Expired(m[gs[i].onion], now) then {gs[i].onion} else {})
  {}

  // What the eviction loop relies on.

  ghost predicate Listing(m: Entries, keys: seq<(string, nat)>) {
    && |keys| == |m|
    && NoRepeat(keys)
    && (forall x :: x in keys ==> x.0 in m && x.1 == m[x.0].lastSeen)
    && (forall k :: k in m ==> (k, m[k].lastSeen) in keys)
  }

  /** The entries as pairs, in whatever order the map is walked. */
  method Listed(m: Entries) returns (keys: seq<(string, nat)>)
    ensures Listing(m, keys)
  {
    keys := [];
    var left := m.Keys;
    while left != {}
      invariant left <= m.Keys && |keys| + |left| == |m|
      invariant forall i :: 0 <= i < |keys| ==> keys[i].0 in m && keys[i].0 !in left && keys[i].1 == m[keys[i].0].lastSeen
      invariant forall k :: k in m && k !in left ==> (k, m[k].lastSeen) in keys
      invariant NoRepeat(keys)
    {
      var k :| k in left;
      keys := keys + [(k, m[k].lastSeen)];
      left := left - {k};
    }
  }

  method OldestFirst(m: Entries) returns (sorted: seq<(string, nat)>)
    ensures Listing(m, sorted) && Sorted(sorted, Older) && |sorted| == |m|
  {
    var keys := Listed(m);
    sorted := SortBy(keys, Older);
    SortedListing(m, keys);
  }

  ghost function Names(s: seq<(string, nat)>): set<string> { set x | x in s :: x.0 }

  lemma NamesExtend(s: seq<(string, nat)>, i: nat)
    requires i < |s|
    ensures Names(s[..i + 1]) == Names(s[..i]) + {s[i].0}
  {}

  /** A map without the first `n` keys of a list. */
  function Without(m: Entries, s: seq<(string, nat)>, n: nat): Entries
    requires n <= |s|
  {
    if n == 0 then m else Without(m, s, n - 1) - {s[n - 1].0}
  }

  lemma {:induction false} WithoutNames(m: Entries, s: seq<(string, nat)>, n: nat)
    requires n <= |s|
    ensures Without(m, s, n) == m - Names(s[..n])
    decreases n
  {
    hide Names;
    if n > 0 {
      WithoutNames(m, s, n - 1);
      NamesExtend(s, n - 1);
    } else {
      NoNames(s);
    }
  }

  lemma NoNames(s: seq<(string, nat)>)
    ensures Names(s[..0]) == {}
  {}

  lemma NothingDropped(m: Entries)
    ensures Within(m, m) && DropsOldest(m, m)
  {}

  lemma SortedListing(m: Entries, keys: seq<(string, nat)>)
    requires Listing(m, keys)
    ensures Listing(m, SortBy(keys, Older)) && Sorted(SortBy(keys, Older), Older) && |SortBy(keys, Older)| == |m|
  {
    OlderTotal();
    SortSorts(keys, Older);
    SortPermutes(keys, Older);
    PermutationDistinct(keys, SortBy(keys, Older));
  }

  lemma NewName(s: seq<(string, nat)>, m: Entries, n: nat)
    requires Listing(m, s) && n < |s|
    ensures s[n].0 !in Names(s[..n]) && s[n].0 in m
  {}

  lemma {:induction false} NamesCount(s: seq<(string, nat)>, m: Entries, n: nat)
    requires Listing(m, s) && n <= |s|
    ensures |Names(s[..n])| == n && Names(s[..n]) <= m.Keys
    decreases n
  {
    hide Listing, Names;
    if n > 0 {
      NamesCount(s, m, n - 1);
      NamesExtend(s, n - 1);
      NewName(s, m, n - 1);
    } else {
      NoNames(s);
    }
  }

  lemma KeepsNewest(m: Entries, s: seq<(string, nat)>, drop: nat)
    requires Listing(m, s) && Sorted(s, Older) && drop <= |s|
    ensures var after := Without(m, s, drop);
            Within(after, m) && DropsOldest(m, after) && |after| == |m| - drop
  {
    var after := Without(m, s, drop);
    WithoutNames(m, s, drop);
    NamesCount(s, m, drop);
    assert after.Keys == m.Keys - Names(s[..drop]);
    assert |after.Keys| == |m.Keys| - drop;
    forall x, y | x in m && x !in after && y in after && y in m
      ensures m[x].lastSeen < m[y].lastSeen || (m[x].lastSeen == m[y].lastSeen && Lexical(x, y))
    {
      DroppedBeforeKept(m, s, drop, x, y);
      StrLessIff(x, y);
    }
  }

  lemma DroppedBeforeKept(m: Entries, s: seq<(string, nat)>, drop: nat, x: string, y: string)
    requires Listing(m, s) && Sorted(s, Older) && drop <= |s|
    requires x in m && y in m && x in Names(s[..drop]) && y !in Names(s[..drop])
    ensures Older((x, m[x].lastSeen), (y, m[y].lastSeen))
  {
    hide Older;
    var p :| p in s[..drop] && p.0 == x;
    var i :| 0 <= i < drop && s[i] == p;
    assert p in s;
    var q := (y, m[y].lastSeen);
    assert forall k :: 0 <= k < drop ==> s[k] in s[..drop];
    var j :| 0 <= j < |s| && s[j] == q;
    OlderTotal();
    assert p != q;
    assert !Older(q, p);
  }

  // ------------------------------------------------------------------------
  // Whole histories
  // ------------------------------------------------------------------------

  /** What happens to a cache over its life: dials, and records dropped by eviction or
      pruning. */
  datatype Event = Dialled(d: Dial) | Dropped(onions: set<string>)

  function Recorded(events: seq<Event>): Entries
    decreases |events|
  {
    if |events| == 0 then map[]
    else
      var m := Recorded(events[..|events| - 1]);
      match events[|events| - 1]
      case Dialled(d) => Updated(m, d)
      case Dropped(onions) => m - onions
  }

  /** Whether an event is a recorded dial of this onion. */
  predicate Concerns(e: Event, onion: string) {
    e.Dialled? && Full(e.d.onion) == onion && onion in e.d.known
  }

  /** The trailing run of failed dials of an onion, not reaching past a success or a drop. */
  function FailedRun(events: seq<Event>, onion: string): nat
    decreases |events|
  {
    if |events| == 0 then 0
    else
      var n := |events| - 1;
      var e := events[n];
      if Concerns(e, onion) then (if e.d.ok then 0 else FailedRun(events[..n], onion) + 1)
      else if e.Dropped? && onion in e.onions then 0
      else FailedRun(events[..n], onion)
  }

  /** When an onion was last dialled since it was last dropped, if it was. */
  function LastDial(events: seq<Event>, onion: string): Option<nat>
    decreases |events|
  {
    if |events| == 0 then None
    else
      var n := |events| - 1;
      var e := events[n];
      if Concerns(e, onion) then Some(e.d.nowMs)
      else if e.Dropped? && onion in e.onions then None
      else LastDial(events[..n], onion)
  }

  /** When the last failed dial of an onion was, since it was last dropped; 0 if there was none. */
  function LastFailure(events: seq<Event>, onion: string): nat
    decreases |events|
  {
    if |events| == 0 then 0
    else
      var n := |events| - 1;
      var e := events[n];
      if Concerns(e, onion) && !e.d.ok then e.d.nowMs
      else if e.Dropped? && onion in e.onions then 0
      else LastFailure(events[..n], onion)
  }

  /** A record exists exactly for the onions dialled since they were last dropped, and holds
      the length of the trailing run of failures and the times of the last dial and failure. */
  lemma {:induction false} RecordIsHistory(events: seq<Event>, onion: string)
    ensures EntryOf(Recorded(events), onion).fails == FailedRun(events, onion)
    ensures onion in Recorded(events) <==> LastDial(events, onion).Some?
    ensures onion in Recorded(events) ==> Recorded(events)[onion].lastSeen == LastDial(events, onion).value
    ensures EntryOf(Recorded(events), onion).lastFail == LastFailure(events, onion)
    decreases |events|
  {
    if |events| > 0 { RecordIsHistory(events[..|events| - 1], onion); }
  }

  /** At least two failures in a row, the last dial less than fourteen days ago. */
  ghost predicate RunsDown(events: seq<Event>, onion: string, now: nat) {
    && FailedRun(events, onion) >= 2
    && LastDial(events, onion).Some? && now < LastDial(events, onion).value + 1_209_600_000
  }

  /** After any history, seeding makes a gateway down exactly when the directory said so or
      its unexpired run of failures has reached the threshold; nothing else changes. */
  lemma SeededDownIff(events: seq<Event>, gs: seq<GatewayEntry>, now: nat, i: nat)
    requires i < |gs|
    ensures var g := Seeded(Recorded(events), gs, now)[i];
            && (Down(g) <==> Down(gs[i]) || RunsDown(events, gs[i].onion, now))
            && g.(health := gs[i].health) == gs[i]
            && (!RunsDown(events, gs[i].onion, now) ==> g == gs[i])
  {
    RecordIsHistory(events, gs[i].onion);
  }

  /** In both failover orders over the seeded directory, every onion still appears, and a
      gateway whose run of failures is live comes after every gateway that is not down; such
      a gateway has no live run of failures itself. */
  lemma FailingGatewaysComeLast(events: seq<Event>, gs: seq<GatewayEntry>, now: nat, current: map<string, real>, stream: nat -> Unit, n: nat)
    ensures var seeded := Seeded(Recorded(events), gs, now);
            && Deprioritised(events, gs, now, Order(seeded, {}, stream, n))
            && Deprioritised(events, gs, now, Spread(seeded, current, stream, n).order)
  {
    hide Order, Spread, Deprioritised;
    var seeded := Seeded(Recorded(events), gs, now);
    SeedingKeepsOnions(events, gs, now);
    SelectionOrderIsSound(seeded, stream, n);
    UpFirstDeprioritises(events, gs, now, Order(seeded, {}, stream, n));
    SpreadOrderIsSound(seeded, current, stream, n);
    UpFirstDeprioritises(events, gs, now, Spread(seeded, current, stream, n).order);
  }

  ghost predicate Deprioritised(events: seq<Event>, gs: seq<GatewayEntry>, now: nat, order: seq<GatewayEntry>) {
    && Onions(order) == Onions(gs)
    && forall i, j :: 0 <= i < |order| && 0 <= j < |order| && RunsDown(events, order[i].onion, now) && !Down(order[j]) ==>
         j < i && !RunsDown(events, order[j].onion, now)
  }

  lemma UpFirstDeprioritises(events: seq<Event>, gs: seq<GatewayEntry>, now: nat, order: seq<GatewayEntry>)
    requires Onions(order) == Onions(gs) && UpFirst(order)
    requires forall i :: 0 <= i < |order| ==> order[i] in Seeded(Recorded(events), gs, now)
    ensures Deprioritised(events, gs, now, order)
  {
    hide RunsDown;
    forall i | 0 <= i < |order| ensures RunsDown(events, order[i].onion, now) ==> Down(order[i]) {
      OrderedDownIff(events, gs, now, order, i);
    }
  }

  lemma OrderedDownIff(events: seq<Event>, gs: seq<GatewayEntry>, now: nat, order: seq<GatewayEntry>, i: nat)
    requires i < |order| && order[i] in Seeded(Recorded(events), gs, now)
    ensures RunsDown(events, order[i].onion, now) ==> Down(order[i])
  {
    var seeded := Seeded(Recorded(events), gs, now);
    var k :| 0 <= k < |seeded| && seeded[k] == order[i];
    SeededDownIff(events, gs, now, k);
  }

  lemma SeedingKeepsOnions(events: seq<Event>, gs: seq<GatewayEntry>, now: nat)
    ensures Onions(Seeded(Recorded(events), gs, now)) == Onions(gs)
  {}
}
