/** `spread_selection_order`: smooth weighted round-robin over the healthy gateways for the
    first candidate, then the weighted-random failover tail. The deficits live in a map
    keyed by onion that survives between calls. */
module SpreadSelection {
  import opened Common
  import opened Records
  import opened Selection
  import SW = SmoothWeighted

  function Positive(gs: seq<GatewayEntry>): (r: seq<GatewayEntry>)
    ensures forall g :: g in r <==> g in gs && Weight(g) > 0.0
  {
    if |gs| == 0 then []
    else (if Weight(gs[0]) > 0.0 then [gs[0]] else []) + Positive(gs[1..])
  }

  /** The gateways that rotate: healthy ones if any, of those the weighted ones if any. */
  function SpreadPool(gs: seq<GatewayEntry>): seq<GatewayEntry> {
    var healthy := Healthy(gs);
    var pool := if |healthy| == 0 then gs else healthy;
    var positive := Positive(pool);
    if |positive| == 0 then pool else positive
  }

  predicate Rotates(gs: seq<GatewayEntry>) {
    |SpreadPool(gs)| >= 2 && SW.Sum(Weights(SpreadPool(gs))) > 0.0
  }

  function Prune(current: map<string, real>, live: set<string>): map<string, real> {
    map o | o in current && o in live :: current[o]
  }

  /** The loop over the pool after `k` gateways: deficits, next draw, leader so far. */
  datatype Tally = Tally(current: map<string, real>, next: nat, winner: Option<nat>, best: real)

  function Credit(t: Tally, g: GatewayEntry, index: nat, stream: nat -> Unit): Tally {
    var isNew := g.onion !in t.current;
    var credited := (if isNew then Phase(stream(t.next), Weight(g)) else t.current[g.onion]) + Weight(g);
    var leads := t.winner.None? || credited > t.best;
    Tally(t.current[g.onion := credited], if isNew then t.next + 1 else t.next,
          if leads then Some(index) else t.winner, if leads then credited else t.best)
  }

  /** The random phase of a gateway new to the state. */
  function Phase(u: Unit, weight: real): (p: real)
    ensures weight > 0.0 ==> 0.0 <= p < weight
  {
    u * weight
  }

  function CreditAll(pool: seq<GatewayEntry>, k: nat, current: map<string, real>, stream: nat -> Unit, n: nat): (t: Tally)
    requires k <= |pool|
    ensures k > 0 ==> t.winner.Some? && t.winner.value < k
  {
    if k == 0 then Tally(current, n, None, 0.0)
    else Credit(CreditAll(pool, k - 1, current, stream, n), pool[k - 1], k - 1, stream)
  }

  /** Deficits after the round: the winner has paid the total. */
  function Settle(pool: seq<GatewayEntry>, t: Tally): map<string, real>
    requires t.winner.Some? && t.winner.value < |pool| && pool[t.winner.value].onion in t.current
  {
    var o := pool[t.winner.value].onion;
    t.current[o := t.current[o] - SW.Sum(Weights(pool))]
  }

  lemma {:induction false} CreditKeys(pool: seq<GatewayEntry>, k: nat, current: map<string, real>, stream: nat -> Unit, n: nat)
    requires k <= |pool|
    ensures var t := CreditAll(pool, k, current, stream, n);
            && (forall i :: 0 <= i < k ==> pool[i].onion in t.current)
            && (forall o :: o in current ==> o in t.current)
  {
    if k > 0 { CreditKeys(pool, k - 1, current, stream, n); }
  }

  datatype Outcome = Outcome(order: seq<GatewayEntry>, current: map<string, real>, next: nat)

  /** One call as a function of the state it found and the draws it was given. */
  function Spread(gs: seq<GatewayEntry>, current: map<string, real>, stream: nat -> Unit, n: nat): Outcome {
    var pool := SpreadPool(gs);
    if |pool| < 2 then
      Outcome(Order(gs, {}, stream, n), current, n + |Order(gs, {}, stream, n)|)
    else
      var live := Prune(current, Onions(gs));
      if SW.Sum(Weights(pool)) <= 0.0 then
        Outcome(Order(gs, {}, stream, n), live, n + |Order(gs, {}, stream, n)|)
      else
        var t := CreditAll(pool, |pool|, live, stream, n);
        CreditKeys(pool, |pool|, live, stream, n);
        var first := pool[t.winner.value];
        var tail := Order(gs, {first.onion}, stream, t.next);
        Outcome([first] + tail, Settle(pool, t), t.next + |tail|)
  }

  class SmoothWeightedState {
    var current: map<string, real>

    constructor ()
      ensures current == map[]
    {
      current := map[];
    }

    method SpreadSelectionOrder(gs: seq<GatewayEntry>, rng: Rng) returns (order: seq<GatewayEntry>)
      modifies this, rng
      ensures Outcome(order, current, rng.next) == Spread(gs, old(current), rng.stream, old(rng.next))
    {
      hide Order, CreditAll, Prune, Weights, SpreadPool;
      var pool := SpreadPool(gs);
      if |pool| < 2 {
        order := SelectionOrder(gs, rng);
        return;
      }
      current := Prune(current, Onions(gs));
      var total := TotalWeight(pool);
      if total <= 0.0 {
        order := SelectionOrder(gs, rng);
        return;
      }
      var winner := CreditPool(pool, rng);
      var first := pool[winner];
      current := current[first.onion := current[first.onion] - total];
      var tail := FillOrder(gs, {first.onion}, rng);
      order := [first] + tail;
    }

    /** The crediting loop: `entry().or_insert_with`, add the weight, keep the leader. */
    method CreditPool(pool: seq<GatewayEntry>, rng: Rng) returns (winner: nat)
      requires |pool| > 0
      modifies this, rng
      ensures winner < |pool| && pool[winner].onion in current
      ensures var t := CreditAll(pool, |pool|, old(current), rng.stream, old(rng.next));
              t.current == current && t.next == rng.next && t.winner == Some(winner)
    {
      hide Weight, Phase;
      ghost var start, n0 := current, rng.next;
      var leader: Option<nat> := None;
      var best := 0.0;
      for i := 0 to |pool|
        invariant CreditAll(pool, i, start, rng.stream, n0) == Tally(current, rng.next, leader, best)
      {
        var g := pool[i];
        if g.onion !in current {
          var u := rng.Draw();
          current := current[g.onion := Phase(u, Weight(g))];
        }
        current := current[g.onion := current[g.onion] + Weight(g)];
        if leader.None? || current[g.onion] > best {
          leader, best := Some(i), current[g.onion];
        }
      }
      CreditKeys(pool, |pool|, start, rng.stream, n0);
      winner := leader.value;
    }
  }

  // ------------------------------------------------------------------------
  // The order it returns
  // ------------------------------------------------------------------------

  /** The rotating gateways are of the best class the directory has. */
  lemma SpreadPoolIsBestClass(gs: seq<GatewayEntry>, g: GatewayEntry, h: GatewayEntry)
    requires g in SpreadPool(gs) && h in gs
    ensures g in gs && Class(g) <= Class(h)
  {}

  /** And they are all of that class, in the order the directory lists them. */
  lemma SpreadPoolMembers(gs: seq<GatewayEntry>, g: GatewayEntry)
    ensures g in SpreadPool(gs) <==> g in gs && forall h :: h in gs ==> Class(g) <= Class(h)
    ensures Subsequence(SpreadPool(gs), gs)
  {
    hide Weight;
    SpreadPoolInOrder(gs);
    hide Subsequence;
    if g in SpreadPool(gs) {
      forall h | h in gs ensures Class(g) <= Class(h) { SpreadPoolIsBestClass(gs, g, h); }
    }
    var healthy := Healthy(gs);
    var pool := if |healthy| == 0 then gs else healthy;
    var positive := Positive(pool);
    if g in gs && forall h :: h in gs ==> Class(g) <= Class(h) {
      if |healthy| > 0 { assert healthy[0] in healthy; }
      assert g in pool;
      if |positive| > 0 {
        assert positive[0] in positive;
        AttestedWeightIsCapped(positive[0]);
        AttestedWeightIsCapped(g);
        assert Class(g) <= Class(positive[0]);
      }
    }
  }

  lemma SpreadPoolInOrder(gs: seq<GatewayEntry>)
    ensures Subsequence(SpreadPool(gs), gs)
  {
    hide Weight;
    var pool := if |Healthy(gs)| == 0 then gs else Healthy(gs);
    HealthyInOrder(gs);
    WholeIsSubsequence(gs);
    PositiveInOrder(pool);
    SubsequenceTransitive(Positive(pool), pool, gs);
  }

  lemma {:induction false} WholeIsSubsequence(gs: seq<GatewayEntry>)
    ensures Subsequence(gs, gs)
    decreases |gs|
  {
    if |gs| > 0 { WholeIsSubsequence(gs[1..]); }
  }

  lemma {:induction false} PositiveInOrder(gs: seq<GatewayEntry>)
    ensures Subsequence(Positive(gs), gs)
    decreases |gs|
  {
    hide Weight;
    if |gs| > 0 {
      PositiveInOrder(gs[1..]);
      var rest := Positive(gs[1..]);
      assert ([gs[0]] + rest)[1..] == rest && [] + rest == rest;
    }
  }

  /** `spread_selection_order` promises the same order properties as `selection_order`,
      from every state. */
  lemma SpreadOrderIsSound(gs: seq<GatewayEntry>, current: map<string, real>, stream: nat -> Unit, n: nat)
    ensures var order := Spread(gs, current, stream, n).order;
            && (forall i :: 0 <= i < |order| ==> order[i] in gs)
            && Onions(order) == Onions(gs)
            && (forall i, j :: 0 <= i < j < |order| ==> order[i].onion != order[j].onion)
            && UpFirst(order) && WeightedFirst(order)
  {
    hide Order, CreditAll, Settle;
    if !Rotates(gs) {
      SelectionOrderIsSound(gs, stream, n);
    } else {
      var pool, live := SpreadPool(gs), Prune(current, Onions(gs));
      var t := CreditAll(pool, |pool|, live, stream, n);
      CreditKeys(pool, |pool|, live, stream, n);
      var first := pool[t.winner.value];
      var tail := Order(gs, {first.onion}, stream, t.next);
      OrderIsGood(gs, {first.onion}, stream, t.next);
      forall h | h in gs ensures first in gs && Class(first) <= Class(h) {
        SpreadPoolIsBestClass(gs, first, h);
      }
      SpreadPoolIsBestClass(gs, first, first);
      assert {} + {first.onion} == {first.onion};
      ConsIsGood(gs, {}, first, tail);
      ClassesOrder([first] + tail);
      assert Onions(gs) - {} == Onions(gs);
    }
  }

  // ------------------------------------------------------------------------
  // Calls on a fixed directory are rounds of the vector machine
  // ------------------------------------------------------------------------

  /** Distinct rotating gateways, each of positive weight. */
  ghost predicate FixedPool(gs: seq<GatewayEntry>) {
    && |SpreadPool(gs)| >= 2
    && (forall i :: 0 <= i < |SpreadPool(gs)| ==> Weight(SpreadPool(gs)[i]) > 0.0)
    && DistinctOnions(SpreadPool(gs))
  }

  /** How many of the first `k` gateways the state does not know: each draws a phase. */
  function Unknowns(pool: seq<GatewayEntry>, current: map<string, real>, k: nat): nat
    requires k <= |pool|
  {
    if k == 0 then 0 else Unknowns(pool, current, k - 1) + (if pool[k - 1].onion in current then 0 else 1)
  }

  /** The deficits a call starts from: those stored, and the phases it is about to draw for
      the gateways it does not know. */
  function Start(pool: seq<GatewayEntry>, current: map<string, real>, stream: nat -> Unit, n: nat): (d: seq<real>)
    ensures |d| == |pool|
    ensures forall i :: 0 <= i < |pool| ==> d[i] == StartAt(pool, current, stream, n, i)
  {
    seq(|pool|, i requires 0 <= i < |pool| => StartAt(pool, current, stream, n, i))
  }

  function StartAt(pool: seq<GatewayEntry>, current: map<string, real>, stream: nat -> Unit, n: nat, i: nat): real
    requires i < |pool|
  {
    if pool[i].onion in current then current[pool[i].onion]
    else Phase(stream(n + Unknowns(pool, current, i)), Weight(pool[i]))
  }

  /** After `k` gateways: the first `k` are credited, the leader is the first largest. */
  ghost predicate Credited(pool: seq<GatewayEntry>, k: nat, d: seq<real>, current: map<string, real>, n: nat, t: Tally)
    requires k <= |pool| == |d|
  {
    && t.next == n + Unknowns(pool, current, k)
    && (forall i :: 0 <= i < k ==> pool[i].onion in t.current && t.current[pool[i].onion] == d[i] + Weight(pool[i]))
    && (forall i :: k <= i < |pool| ==>
        (pool[i].onion in t.current <==> pool[i].onion in current)
        && (pool[i].onion in current ==> t.current[pool[i].onion] == current[pool[i].onion]))
    && (k == 0 ==> t.winner.None?)
    && (k > 0 ==>
        && t.winner.Some? && t.winner.value < k
        && t.best == d[t.winner.value] + Weight(pool[t.winner.value])
        && (forall i :: 0 <= i < k ==> d[i] + Weight(pool[i]) <= t.best)
        && (forall i :: 0 <= i < t.winner.value ==> d[i] + Weight(pool[i]) < t.best))
  }

  ghost predicate DistinctOnions(pool: seq<GatewayEntry>) {
    forall i, j :: 0 <= i < j < |pool| ==> pool[i].onion != pool[j].onion
  }

  lemma CreditedStep(pool: seq<GatewayEntry>, k: nat, d: seq<real>, current: map<string, real>, stream: nat -> Unit,
                     n: nat, t: Tally)
    requires k < |pool| == |d| && DistinctOnions(pool)
    requires Credited(pool, k, d, current, n, t)
    requires d[k] == StartAt(pool, current, stream, n, k)
    ensures Credited(pool, k + 1, d, current, n, Credit(t, pool[k], k, stream))
  {
    hide Phase, Weight;
  }

  lemma NoneCredited(pool: seq<GatewayEntry>, d: seq<real>, current: map<string, real>, n: nat)
    requires |pool| == |d|
    ensures Credited(pool, 0, d, current, n, Tally(current, n, None, 0.0))
  {}

  lemma {:induction false} CreditAllIsVector(pool: seq<GatewayEntry>, k: nat, current: map<string, real>, stream: nat -> Unit, n: nat)
    requires k <= |pool| && DistinctOnions(pool)
    ensures Credited(pool, k, Start(pool, current, stream, n), current, n, CreditAll(pool, k, current, stream, n))
  {
    hide Credit, Phase, Weight, DistinctOnions, Credited, Start, StartAt;
    if k == 0 {
      NoneCredited(pool, Start(pool, current, stream, n), current, n);
    } else {
      var d, t := Start(pool, current, stream, n), CreditAll(pool, k - 1, current, stream, n);
      assert CreditAll(pool, k, current, stream, n) == Credit(t, pool[k - 1], k - 1, stream);
      hide CreditAll;
      CreditAllIsVector(pool, k - 1, current, stream, n);
      CreditedStep(pool, k - 1, d, current, stream, n, t);
    }
  }

  /** Charging the leader of a fully credited pool completes a round. */
  lemma SettleIsRound(pool: seq<GatewayEntry>, d: seq<real>, current: map<string, real>, stream: nat -> Unit, n: nat, t: Tally, m: nat)
    requires |pool| == |d| > 0 && DistinctOnions(pool) && Credited(pool, |pool|, d, current, n, t)
    ensures var after := Settle(pool, t);
            && (forall i :: 0 <= i < |pool| ==> pool[i].onion in after)
            && SW.Round(d, Weights(pool), t.winner.value, Start(pool, after, stream, m))
  {
    hide Weight, Phase;
  }

  /** One call on a fixed pool, whatever the state knows of it: the deficits make one round of
      the vector machine and the first candidate is the round's pick. */
  lemma SpreadIsRound(gs: seq<GatewayEntry>, current: map<string, real>, stream: nat -> Unit, n: nat)
      returns (k: nat)
    requires FixedPool(gs)
    ensures var pool := SpreadPool(gs); var out := Spread(gs, current, stream, n);
            && k < |pool| && |out.order| > 0 && out.order[0] == pool[k]
            && (forall i :: 0 <= i < |pool| ==> pool[i].onion in out.current)
            && SW.Round(Start(pool, current, stream, n), Weights(pool), k, Start(pool, out.current, stream, out.next))
  {
    hide Order, SpreadPool, Weight, Phase, Credited, SW.Round, Settle;
    var pool := SpreadPool(gs);
    var live := Prune(current, Onions(gs));
    SW.EntryBelowSum(Weights(pool), 0);
    var t := CreditAll(pool, |pool|, live, stream, n);
    CreditKeys(pool, |pool|, live, stream, n);
    PoolSurvives(gs, current, stream, n);
    CreditAllIsVector(pool, |pool|, live, stream, n);
    k := t.winner.value;
    SettleIsRound(pool, Start(pool, current, stream, n), live, stream, n, t, Spread(gs, current, stream, n).next);
  }

  /** Pruning to the directory keeps every rotating gateway. */
  lemma PoolSurvives(gs: seq<GatewayEntry>, current: map<string, real>, stream: nat -> Unit, n: nat)
    ensures Start(SpreadPool(gs), Prune(current, Onions(gs)), stream, n) == Start(SpreadPool(gs), current, stream, n)
  {
    hide Phase, Weight;
    var pool, live := SpreadPool(gs), Prune(current, Onions(gs));
    forall i | 0 <= i < |pool| ensures StartAt(pool, live, stream, n, i) == StartAt(pool, current, stream, n, i) {
      SameUnknowns(gs, current, i);
      InDirectory(gs, pool[i]);
    }
  }

  lemma InDirectory(gs: seq<GatewayEntry>, g: GatewayEntry)
    requires g in SpreadPool(gs)
    ensures g.onion in Onions(gs)
  {}

  lemma {:induction false} SameUnknowns(gs: seq<GatewayEntry>, current: map<string, real>, k: nat)
    requires k <= |SpreadPool(gs)|
    ensures Unknowns(SpreadPool(gs), Prune(current, Onions(gs)), k) == Unknowns(SpreadPool(gs), current, k)
  {
    hide SpreadPool;
    if k > 0 {
      SameUnknowns(gs, current, k - 1);
      InDirectory(gs, SpreadPool(gs)[k - 1]);
    }
  }

  // ------------------------------------------------------------------------
  // Any number of calls
  // ------------------------------------------------------------------------

  /** The deficits and the rng position after `m` calls on one directory. */
  function After(gs: seq<GatewayEntry>, current: map<string, real>, stream: nat -> Unit, n: nat, m: nat): (map<string, real>, nat)
  {
    if m == 0 then (current, n)
    else
      var (before, at) := After(gs, current, stream, n, m - 1);
      var out := Spread(gs, before, stream, at);
      (out.current, out.next)
  }

  /** The first candidate of each of `m` calls, by onion. */
  function Firsts(gs: seq<GatewayEntry>, current: map<string, real>, stream: nat -> Unit, n: nat, m: nat): (r: seq<string>)
    requires FixedPool(gs)
    ensures |r| == m
  {
    if m == 0 then []
    else
      var (before, at) := After(gs, current, stream, n, m - 1);
      SpreadNonEmpty(gs, before, stream, at);
      Firsts(gs, current, stream, n, m - 1) + [Spread(gs, before, stream, at).order[0].onion]
  }

  lemma SpreadNonEmpty(gs: seq<GatewayEntry>, current: map<string, real>, stream: nat -> Unit, n: nat)
    requires FixedPool(gs)
    ensures |Spread(gs, current, stream, n).order| > 0
  {}

  /** `names[c]` is the onion of the gateway `picks[c]`. */
  ghost predicate Named(pool: seq<GatewayEntry>, picks: seq<nat>, names: seq<string>) {
    |picks| == |names| && forall c :: 0 <= c < |picks| ==> picks[c] < |pool| && names[c] == pool[picks[c]].onion
  }

  /** From any state, `m` calls are `m` rounds of the vector machine, starting from the stored
      deficits and the phases drawn for gateways that have none. */
  lemma {:induction false} CallsAreRun(gs: seq<GatewayEntry>, current: map<string, real>, stream: nat -> Unit, n: nat, m: nat)
      returns (ds: seq<seq<real>>, picks: seq<nat>)
    requires FixedPool(gs)
    ensures var pool := SpreadPool(gs); var state := After(gs, current, stream, n, m);
            && SW.Run(Weights(pool), ds, picks) && |picks| == m && SW.Positive(Weights(pool))
            && ds[0] == Start(pool, current, stream, n) && ds[m] == Start(pool, state.0, stream, state.1)
            && Named(pool, picks, Firsts(gs, current, stream, n, m))
  {
    hide Spread, SpreadPool, Weight, SW.Round, Start;
    var pool := SpreadPool(gs);
    if m == 0 {
      ds, picks := [Start(pool, current, stream, n)], [];
    } else {
      var (before, at) := After(gs, current, stream, n, m - 1);
      var es, ps := CallsAreRun(gs, current, stream, n, m - 1);
      var k := SpreadIsRound(gs, before, stream, at);
      var out := Spread(gs, before, stream, at);
      ds, picks := es + [Start(pool, out.current, stream, out.next)], ps + [k];
      forall c | 0 <= c < |picks| ensures SW.RoundAt(Weights(pool), ds, picks, c) {
        if c < m - 1 { assert SW.RoundAt(Weights(pool), es, ps, c); }
      }
    }
  }

  lemma {:induction false} NamesCount(pool: seq<GatewayEntry>, picks: seq<nat>, names: seq<string>, i: nat)
    requires Named(pool, picks, names) && DistinctOnions(pool) && i < |pool|
    ensures multiset(names)[pool[i].onion] == SW.Count(picks, i)
    decreases |picks|
  {
    if |picks| > 0 {
      var c := |picks| - 1;
      assert picks == picks[..c] + [picks[c]] && names == names[..c] + [names[c]];
      NamesCount(pool, picks[..c], names[..c], i);
    }
  }

  // ------------------------------------------------------------------------
  // The state and the tail
  // ------------------------------------------------------------------------

  lemma {:induction false} CreditTouchesPool(pool: seq<GatewayEntry>, k: nat, current: map<string, real>, stream: nat -> Unit, n: nat)
    requires k <= |pool|
    ensures var t := CreditAll(pool, k, current, stream, n);
            && (forall o :: o in t.current <==> o in current || o in Onions(pool[..k]))
            && (forall o :: o in current && o !in Onions(pool[..k]) ==> t.current[o] == current[o])
  {
    hide Weight, Phase;
    if k > 0 {
      CreditTouchesPool(pool, k - 1, current, stream, n);
      OnionsSnoc(pool, k - 1);
    }
  }

  lemma OnionsSnoc(pool: seq<GatewayEntry>, k: nat)
    requires k < |pool|
    ensures Onions(pool[..k + 1]) == Onions(pool[..k]) + {pool[k].onion}
  {
    assert pool[..k + 1] == pool[..k] + [pool[k]];
  }

  /** The state cannot grow with address churn: a call that rotates leaves deficits for exactly
      the rotating gateways and those it knew that the directory still lists, the latter
      untouched; a directory without weight is only pruned, and one that leaves nothing to
      rotate changes nothing. */
  lemma SpreadForgetsAbsent(gs: seq<GatewayEntry>, current: map<string, real>, stream: nat -> Unit, n: nat)
    ensures var pool := SpreadPool(gs); var after := Spread(gs, current, stream, n).current;
            && (|pool| < 2 ==> after == current)
            && (|pool| >= 2 && !Rotates(gs) ==> after.Keys == current.Keys * Onions(gs))
            && (Rotates(gs) ==> after.Keys == current.Keys * Onions(gs) + Onions(pool))
            && (|pool| >= 2 ==> forall o :: o in after && (o !in Onions(pool) || !Rotates(gs)) ==> after[o] == current[o])
  {
    hide Order, SpreadPool, CreditAll, Weight;
    var pool, live := SpreadPool(gs), Prune(current, Onions(gs));
    if Rotates(gs) {
      CreditTouchesPool(pool, |pool|, live, stream, n);
      CreditKeys(pool, |pool|, live, stream, n);
      assert pool[..|pool|] == pool;
      var t := CreditAll(pool, |pool|, live, stream, n);
      assert pool[t.winner.value] in pool;
    }
  }

  /** Where fewer than two gateways or no weight are left to rotate, the order is the weighted
      failover order, from the same draws. */
  lemma WithoutRotation(gs: seq<GatewayEntry>, current: map<string, real>, stream: nat -> Unit, n: nat, k: nat)
    requires !Rotates(gs) && k <= |Spread(gs, current, stream, n).order|
    ensures var out := Spread(gs, current, stream, n);
            && out.next == n + |out.order|
            && Pick(gs, Onions(out.order[..k]), stream(n + k)) == if k < |out.order| then Some(out.order[k]) else None
  {
    hide Order, Pick;
    OrderIsPicks(gs, {}, stream, n, k);
    var order := Order(gs, {}, stream, n);
    assert {} + Onions(order[..k]) == Onions(order[..k]);
  }

  /** Behind the leader, place `k` is the pick of the next draw among those not placed yet. */
  lemma SpreadTailIsPicks(gs: seq<GatewayEntry>, current: map<string, real>, stream: nat -> Unit, n: nat, k: nat)
    requires Rotates(gs) && 1 <= k <= |Spread(gs, current, stream, n).order|
    ensures var out := Spread(gs, current, stream, n); var at := out.next - |out.order| + k;
            && 0 <= at
            && Pick(gs, Onions(out.order[..k]), stream(at)) == if k < |out.order| then Some(out.order[k]) else None
  {
    hide Order, CreditAll, Pick;
    var pool, live := SpreadPool(gs), Prune(current, Onions(gs));
    var t := CreditAll(pool, |pool|, live, stream, n);
    CreditKeys(pool, |pool|, live, stream, n);
    var first := pool[t.winner.value];
    var tail, order := Order(gs, {first.onion}, stream, t.next), Spread(gs, current, stream, n).order;
    OrderIsPicks(gs, {first.onion}, stream, t.next, k - 1);
    assert order[..k] == [first] + tail[..k - 1];
    OnionsCons(first, tail[..k - 1]);
  }

  // ------------------------------------------------------------------------
  // What the rotation promises
  // ------------------------------------------------------------------------

  /** The state knows none of the rotating gateways yet, as on the first call. */
  ghost predicate Unknown(gs: seq<GatewayEntry>, current: map<string, real>) {
    forall g :: g in SpreadPool(gs) ==> g.onion !in current
  }

  lemma DrawnPhases(gs: seq<GatewayEntry>, current: map<string, real>, stream: nat -> Unit, n: nat)
    requires FixedPool(gs) && Unknown(gs, current)
    ensures SW.Phases(Start(SpreadPool(gs), current, stream, n), Weights(SpreadPool(gs)))
  {
    hide SpreadPool, Weight;
    var pool := SpreadPool(gs);
    forall i | 0 <= i < |pool| ensures pool[i].onion !in current { assert pool[i] in pool; }
  }

  /** The first call draws one phase per gateway, in pool order, each its draw times its weight. */
  lemma DrawnPhaseIs(gs: seq<GatewayEntry>, current: map<string, real>, stream: nat -> Unit, n: nat, i: nat)
    requires Unknown(gs, current) && i < |SpreadPool(gs)|
    ensures IsProduct(Start(SpreadPool(gs), current, stream, n)[i], stream(n + i), Weight(SpreadPool(gs)[i]))
  {
    hide SpreadPool, Weight, IsProduct, Phase;
    var pool := SpreadPool(gs);
    forall k | 0 <= k < |pool| ensures pool[k].onion !in current { assert pool[k] in pool; }
    AllUnknown(pool, current, i);
    PhaseIsProduct(stream(n + i), Weight(pool[i]));
  }

  ghost predicate IsProduct(p: real, u: Unit, weight: real) { p == u * weight }

  lemma PhaseIsProduct(u: Unit, weight: real)
    ensures IsProduct(Phase(u, weight), u, weight)
  {}

  lemma {:induction false} AllUnknown(pool: seq<GatewayEntry>, current: map<string, real>, k: nat)
    requires k <= |pool| && forall i :: 0 <= i < |pool| ==> pool[i].onion !in current
    ensures Unknowns(pool, current, k) == k
  {
    if k > 0 { AllUnknown(pool, current, k - 1); }
  }

  /** How many of `m` calls gateway `i` led. */
  ghost function Led(gs: seq<GatewayEntry>, current: map<string, real>, stream: nat -> Unit, n: nat, m: nat, i: nat): nat
    requires FixedPool(gs) && i < |SpreadPool(gs)|
  {
    multiset(Firsts(gs, current, stream, n, m))[SpreadPool(gs)[i].onion]
  }

  /** "Unequal weights retain their exact long-run share": after any number `m` of calls on a
      fixed pool of k gateways, from any stored deficits and whatever the draws, a gateway of
      clamped weight w has led `count` orders with count * W - m * w between two constants
      that depend only on where the deficits started. When none was stored yet, that is
      |count * W - m * w| < k * W. */
  lemma SpreadKeepsExactShare(gs: seq<GatewayEntry>, current: map<string, real>, stream: nat -> Unit, n: nat, m: nat, i: nat)
    requires FixedPool(gs) && i < |SpreadPool(gs)|
    ensures var pool := SpreadPool(gs); var w := Weights(pool); var d := Start(pool, current, stream, n);
            var count := Led(gs, current, stream, n, m, i);
            && SW.ShareBetween(d[i] - SW.Ceiling(d, w, i), count, m, SW.Sum(w), w[i], d[i] - SW.Floor(d, w, i))
            && (Unknown(gs, current) ==> SW.ShareWithin(count, m, |pool|, SW.Sum(w), w[i]))
  {
    hide SpreadPool, Weight, Spread, SW.Round, SW.Run, SW.ShareWithin, SW.ShareBetween, SW.Floor, SW.Ceiling, SW.Phases;
    var pool := SpreadPool(gs);
    var ds, picks := CallsAreRun(gs, current, stream, n, m);
    assert picks[..m] == picks;
    NamesCount(pool, picks, Firsts(gs, current, stream, n, m), i);
    hide Start, Firsts, After;
    SW.ShareFromAnyDeficits(Weights(pool), ds, picks, m, i);
    if Unknown(gs, current) {
      DrawnPhases(gs, current, stream, n);
      SW.ExactLongRunShare(Weights(pool), ds, picks, m, i);
    }
  }

  /** The deficits between calls: they always sum to what they started from and never fall
      below a floor fixed at the start, which is above minus the total weight when all of
      them were drawn. */
  lemma SpreadConservesDeficits(gs: seq<GatewayEntry>, current: map<string, real>, stream: nat -> Unit, n: nat, m: nat)
    requires FixedPool(gs)
    ensures var pool := SpreadPool(gs); var state := After(gs, current, stream, n, m);
            var d, e := Start(pool, current, stream, n), Start(pool, state.0, stream, state.1);
            && SW.Sum(e) == SW.Sum(d)
            && (forall i :: 0 <= i < |e| ==> e[i] >= SW.Floor(d, Weights(pool), i))
            && (Unknown(gs, current) ==> forall i :: 0 <= i < |e| ==> e[i] > -SW.Sum(Weights(pool)))
  {
    hide SpreadPool, Weight, Spread, SW.Round, SW.Run, SW.Floor, SW.Phases;
    var ds, picks := CallsAreRun(gs, current, stream, n, m);
    SW.DeficitsBounded(Weights(SpreadPool(gs)), ds, picks, m);
    if Unknown(gs, current) {
      DrawnPhases(gs, current, stream, n);
      SW.DeficitsConserved(Weights(SpreadPool(gs)), ds, picks, m);
    }
  }

  ghost predicate EqualWeights(gs: seq<GatewayEntry>) {
    FixedPool(gs) && forall j :: 0 <= j < |SpreadPool(gs)| ==> Weight(SpreadPool(gs)[j]) == Weight(SpreadPool(gs)[0])
  }

  /** The calls from `from` on lead with each of the rotating gateways exactly once. */
  ghost predicate LeadsEachOnce(gs: seq<GatewayEntry>, firsts: seq<string>, from: nat)
    requires from + |SpreadPool(gs)| <= |firsts|
  {
    forall i :: 0 <= i < |SpreadPool(gs)| ==>
      multiset(firsts[from..from + |SpreadPool(gs)|])[SpreadPool(gs)[i].onion] == 1
  }

  /** "Equal weights rotate": every window of k consecutive calls leads with each of the k
      gateways exactly once if and only if, of the deficits the calls start from, none is
      ahead of another by a full total (or by exactly that much only where the other comes
      first). */
  lemma EqualWeightsRotateIff(gs: seq<GatewayEntry>, current: map<string, real>, stream: nat -> Unit, n: nat, m: nat)
    requires EqualWeights(gs) && |SpreadPool(gs)| <= m
    ensures var pool := SpreadPool(gs); var firsts := Firsts(gs, current, stream, n, m);
            (forall from :: 0 <= from <= m - |pool| ==> LeadsEachOnce(gs, firsts, from))
            <==> SW.Tight(Start(pool, current, stream, n), SW.Sum(Weights(pool)))
  {
    hide SpreadPool, Weight, Spread, Firsts, After, SW.Round, SW.Run, SW.Tight, SW.FullCycle, LeadsEachOnce;
    var pool, firsts := SpreadPool(gs), Firsts(gs, current, stream, n, m);
    var ds, picks := CallsAreRun(gs, current, stream, n, m);
    SW.RotatesIff(Weights(pool), Weight(pool[0]), ds, picks);
    forall from | 0 <= from <= m - |pool| ensures LeadsEachOnce(gs, firsts, from) <==> SW.FullCycle(picks, |pool|, from) {
      WindowNames(gs, picks, firsts, from);
    }
  }

  lemma WindowNames(gs: seq<GatewayEntry>, picks: seq<nat>, names: seq<string>, from: nat)
    requires var pool := SpreadPool(gs);
             Named(pool, picks, names) && DistinctOnions(pool) && from + |pool| <= |picks|
    ensures LeadsEachOnce(gs, names, from) <==> SW.FullCycle(picks, |SpreadPool(gs)|, from)
  {
    hide SpreadPool;
    var pool := SpreadPool(gs);
    var window, span := names[from..from + |pool|], picks[from..from + |pool|];
    forall i: nat | i < |pool| ensures multiset(window)[pool[i].onion] == 1 <==> SW.Once(picks, |pool|, from, i) {
      NamesCount(pool, span, window, i);
    }
  }

  /** "Without immediate repetition": no two consecutive calls lead with the same gateway if
      and only if no gateway starts ahead of every other even after paying the total. */
  lemma NoImmediateRepetitionIff(gs: seq<GatewayEntry>, current: map<string, real>, stream: nat -> Unit, n: nat, m: nat)
    requires EqualWeights(gs) && 2 <= m
    ensures var pool := SpreadPool(gs); var firsts := Firsts(gs, current, stream, n, m);
            (forall c :: 0 <= c < m - 1 ==> firsts[c] != firsts[c + 1])
            <==> !exists i :: SW.Outruns(Start(pool, current, stream, n), SW.Sum(Weights(pool)), i)
  {
    hide SpreadPool, Weight, Spread, Firsts, After, SW.Round, SW.Run, SW.Outruns;
    var pool, firsts := SpreadPool(gs), Firsts(gs, current, stream, n, m);
    var ds, picks := CallsAreRun(gs, current, stream, n, m);
    SW.NeverRepeatsIff(Weights(pool), Weight(pool[0]), ds, picks);
    forall c | 0 <= c < m - 1 ensures firsts[c] == firsts[c + 1] <==> picks[c] == picks[c + 1] {
      SameName(pool, picks, firsts, c, c + 1);
    }
  }

  lemma SameName(pool: seq<GatewayEntry>, picks: seq<nat>, names: seq<string>, c: nat, e: nat)
    requires Named(pool, picks, names) && DistinctOnions(pool) && c < |picks| && e < |picks|
    ensures names[c] == names[e] <==> picks[c] == picks[e]
  {}

  /** Both promises hold from a state that knows none of the gateways. */
  lemma EqualWeightsRotate(gs: seq<GatewayEntry>, current: map<string, real>, stream: nat -> Unit, n: nat, m: nat)
    requires EqualWeights(gs) && Unknown(gs, current) && |SpreadPool(gs)| <= m
    ensures var pool := SpreadPool(gs); var firsts := Firsts(gs, current, stream, n, m);
            && (forall from :: 0 <= from <= m - |pool| ==> LeadsEachOnce(gs, firsts, from))
            && (forall c :: 0 <= c < m - 1 ==> firsts[c] != firsts[c + 1])
  {
    hide SpreadPool, Weight, Firsts, LeadsEachOnce, SW.Phases;
    var pool := SpreadPool(gs);
    var d, total := Start(pool, current, stream, n), SW.Sum(Weights(pool));
    DrawnPhases(gs, current, stream, n);
    SW.PhasesAreTight(d, Weights(pool), Weight(pool[0]));
    EqualWeightsRotateIff(gs, current, stream, n, m);
    NoImmediateRepetitionIff(gs, current, stream, n, m);
    TightOutrunsNobody(d, total);
  }

  lemma TightOutrunsNobody(d: seq<real>, total: real)
    requires SW.Tight(d, total) && |d| >= 2
    ensures !exists i :: SW.Outruns(d, total, i)
  {
    forall i: nat ensures !SW.Outruns(d, total, i) {
      if i < |d| {
        var j := if i == 0 then 1 else 0;
        assert d[i] - d[j] < total || (d[i] - d[j] == total && j < i);
      }
    }
  }

  // ------------------------------------------------------------------------
  // Deficits carried over a weight change
  // ------------------------------------------------------------------------

  function Gateway(onion: string, weight: nat): GatewayEntry {
    GatewayEntry(onion, "", weight, "up", None, None, None, None)
  }

  /** Two healthy gateways of one weight. */
  function Pair(weight: nat): seq<GatewayEntry> { [Gateway("a", weight), Gateway("b", weight)] }

  function Draws(n: nat): Unit { if n == 0 then 0.9 else 0.0 }

  lemma PairRotates(weight: nat)
    requires 0 < weight <= 1000
    ensures SpreadPool(Pair(weight)) == Pair(weight) && Weights(Pair(weight)) == [weight as real, weight as real]
    ensures EqualWeights(Pair(weight)) && SW.Sum(Weights(Pair(weight))) == 2.0 * weight as real
  {
    var a, b := Gateway("a", weight), Gateway("b", weight);
    assert Weight(a) == weight as real && Weight(b) == weight as real;
    hide Weight;
    assert [a, b][1..] == [b] && [b][1..] == [] && [a] + [b] == [a, b];
    assert Healthy([b]) == [b] && Positive([b]) == [b];
    assert Healthy([a, b]) == [a, b] && Positive([a, b]) == [a, b];
    var x := weight as real;
    assert [x, x][1..] == [x] && [x][1..] == [];
    assert SW.Sum([x]) == x && SW.Sum([x, x]) == x + x;
  }

  /** A call with weights 1000 leaves 1100 between the two deficits. */
  lemma FirstCallLeavesGap() returns (out: Outcome)
    ensures out == Spread(Pair(1000), map[], Draws, 0)
    ensures "a" in out.current && out.current["a"] == -100.0 && "b" in out.current && out.current["b"] == 1000.0
  {
    hide Spread, SpreadPool, Weights;
    var gs := Pair(1000);
    PairRotates(1000);
    out := Spread(gs, map[], Draws, 0);
    var k := SpreadIsRound(gs, map[], Draws, 0);
    var d, e := Start(gs, map[], Draws, 0), Start(gs, out.current, Draws, out.next);
    assert d[0] == 900.0 && d[1] == 0.0;
    assert gs[0].onion in out.current && gs[1].onion in out.current;
    assert e[0] == out.current["a"] && e[1] == out.current["b"];
  }

  /** The promises fail for deficits carried over to a refreshed directory: after one call at
      weight 1000 the directory is refreshed with both weights 1, and the next four calls all
      lead with the same gateway, which is neither a rotation nor a share within k * W. */
  lemma CarriedDeficitsRepeat()
    ensures var first := Spread(Pair(1000), map[], Draws, 0);
            && EqualWeights(Pair(1))
            && Firsts(Pair(1), first.current, Draws, first.next, 4) == ["b", "b", "b", "b"]
            && !SW.ShareWithin(4, 4, |Pair(1)|, SW.Sum(Weights(Pair(1))), Weights(Pair(1))[1])
  {
    hide Spread, SpreadPool, Firsts, Weights;
    var first := FirstCallLeavesGap();
    var gs := Pair(1);
    PairRotates(1);
    var ds, picks := CallsAreRun(gs, first.current, Draws, first.next, 4);
    assert ds[0][0] == -100.0 && ds[0][1] == 1000.0;
    assert SW.RoundAt(Weights(gs), ds, picks, 0) && picks[0] == 1;
    assert SW.RoundAt(Weights(gs), ds, picks, 1) && picks[1] == 1;
    assert SW.RoundAt(Weights(gs), ds, picks, 2) && picks[2] == 1;
    assert SW.RoundAt(Weights(gs), ds, picks, 3) && picks[3] == 1;
  }
}
