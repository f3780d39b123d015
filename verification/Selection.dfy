/** Gateway selection: the weighted pick and the failover order built from it. Floating
    point is exact arithmetic here, and the rng is an arbitrary stream in [0, 1). */
module Selection {
  import opened Common
  import opened Records
  import opened SmoothWeighted

  const MAX_WEIGHT: real := 1000.0

  type Unit = u: real | 0.0 <= u < 1.0

  /** An attested weight as the client reads it: a number, or something not finite. */
  datatype Double = Finite(value: real) | NonFinite

  function ClampWeight(weight: Option<Double>): real {
    match weight
    case Some(Finite(w)) => if w < 0.0 then 0.0 else if w > MAX_WEIGHT then MAX_WEIGHT else w
    case _ => 1.0
  }

  function Weight(g: GatewayEntry): real { ClampWeight(Some(Finite(g.weight as real))) }

  function Weights(pool: seq<GatewayEntry>): (ws: seq<real>)
    ensures |ws| == |pool| && forall i :: 0 <= i < |pool| ==> ws[i] == Weight(pool[i])
  {
    seq(|pool|, i requires 0 <= i < |pool| => Weight(pool[i]))
  }

  predicate Down(g: GatewayEntry) { g.health == "down" }

  /** The gateways a pick draws from: those not excluded, and the healthy ones if any. */
  function Pool(gs: seq<GatewayEntry>, exclude: set<string>): seq<GatewayEntry> {
    var all := Remaining(gs, exclude);
    var healthy := Healthy(all);
    if |healthy| == 0 then all else healthy
  }

  function Remaining(gs: seq<GatewayEntry>, exclude: set<string>): (r: seq<GatewayEntry>)
    ensures forall g :: g in r <==> g in gs && g.onion !in exclude
  {
    if |gs| == 0 then []
    else (if gs[0].onion !in exclude then [gs[0]] else []) + Remaining(gs[1..], exclude)
  }

  function Healthy(gs: seq<GatewayEntry>): (r: seq<GatewayEntry>)
    ensures forall g :: g in r <==> g in gs && !Down(g)
  {
    if |gs| == 0 then []
    else (if !Down(gs[0]) then [gs[0]] else []) + Healthy(gs[1..])
  }

  /** The injected random source. */
  class Rng {
    const stream: nat -> Unit
    var next: nat

    constructor (stream: nat -> Unit)
      ensures this.stream == stream && next == 0
    {
      this.stream := stream;
      next := 0;
    }

    method Draw() returns (u: Unit)
      modifies this
      ensures u == stream(old(next)) && next == old(next) + 1
    {
      u := stream(next);
      next := next + 1;
    }
  }

  // ------------------------------------------------------------------------
  // One weighted pick
  // ------------------------------------------------------------------------

  /** The walk that subtracts weights until the remainder turns negative. */
  function Walk(ws: seq<real>, r: real): (k: nat)
    requires |ws| > 0
    ensures k < |ws|
  {
    if |ws| == 1 || r - ws[0] < 0.0 then 0 else 1 + Walk(ws[1..], r - ws[0])
  }

  function UniformIndex(size: nat, u: Unit): (k: nat)
    requires size > 0
    ensures k < size
  {
    var k := (u * size as real).Floor;
    if k < 0 then 0 else if k < size then k else size - 1
  }

  function PickIndex(ws: seq<real>, u: Unit): (k: nat)
    requires |ws| > 0
    ensures k < |ws|
  {
    if Sum(ws) <= 0.0 then UniformIndex(|ws|, u) else Walk(ws, Scale(u, Sum(ws)))
  }

  /** A draw stretched over the total weight. */
  function Scale(u: Unit, total: real): (r: real)
    requires total > 0.0
    ensures 0.0 <= r < total
  {
    u * total
  }

  function Pick(gs: seq<GatewayEntry>, exclude: set<string>, u: Unit): Option<GatewayEntry> {
    var pool := Pool(gs, exclude);
    if |pool| == 0 then None else Some(pool[PickIndex(Weights(pool), u)])
  }

  method TotalWeight(pool: seq<GatewayEntry>) returns (total: real)
    ensures total == Sum(Weights(pool))
  {
    ghost var ws := Weights(pool);
    total := 0.0;
    for i := 0 to |pool|
      invariant total + Sum(ws[i..]) == Sum(ws)
    {
      assert ws[i..][1..] == ws[i + 1..];
      total := total + Weight(pool[i]);
    }
  }

  method WalkPool(pool: seq<GatewayEntry>, start: real) returns (k: nat)
    requires |pool| > 0
    ensures k == Walk(Weights(pool), start)
  {
    ghost var ws := Weights(pool);
    var r := start;
    for i := 0 to |pool|
      invariant i < |pool| ==> Walk(ws, start) == i + Walk(ws[i..], r)
      invariant i == |pool| ==> Walk(ws, start) == |pool| - 1
    {
      assert ws[i..][0] == ws[i] && ws[i..][1..] == ws[i + 1..];
      r := r - Weight(pool[i]);
      if r < 0.0 {
        return i;
      }
    }
    return |pool| - 1;
  }

  /** `pick_gateway`: one draw when there is anything to pick, none otherwise. */
  method PickGateway(gs: seq<GatewayEntry>, exclude: set<string>, rng: Rng) returns (g: Option<GatewayEntry>)
    modifies rng
    ensures g == Pick(gs, exclude, rng.stream(old(rng.next)))
    ensures rng.next == old(rng.next) + (if g.None? then 0 else 1)
  {
    hide Scale;
    var pool := Pool(gs, exclude);
    if |pool| == 0 {
      return None;
    }
    var total := TotalWeight(pool);
    var u := rng.Draw();
    if total <= 0.0 {
      return Some(pool[UniformIndex(|pool|, u)]);
    }
    var k := WalkPool(pool, Scale(u, total));
    g := Some(pool[k]);
  }

  lemma {:induction false} PrefixSum(ws: seq<real>, i: nat)
    requires i < |ws|
    ensures Sum(ws[..i + 1]) == Sum(ws[..i]) + ws[i]
    decreases |ws|
  {
    if i == 0 {
      assert ws[..1][1..] == [] && ws[..0] == [];
    } else {
      PrefixSum(ws[1..], i - 1);
      assert ws[..i + 1][1..] == ws[1..][..i] && ws[..i][1..] == ws[1..][..i - 1];
    }
  }

  lemma {:induction false} PrefixSumMonotone(ws: seq<real>, i: nat, j: nat)
    requires i <= j <= |ws| && forall k :: 0 <= k < |ws| ==> ws[k] >= 0.0
    ensures Sum(ws[..i]) <= Sum(ws[..j])
    decreases j
  {
    if i < j {
      PrefixSumMonotone(ws, i, j - 1);
      PrefixSum(ws, j - 1);
    }
  }

  lemma {:induction false} WalkLands(ws: seq<real>, r: real)
    requires |ws| > 0 && 0.0 <= r < Sum(ws)
    ensures var k := Walk(ws, r); Sum(ws[..k]) <= r < Sum(ws[..k + 1])
    decreases |ws|
  {
    if r - ws[0] < 0.0 {
      assert ws[..1][1..] == [] && ws[..0] == [];
    } else {
      WalkLands(ws[1..], r - ws[0]);
      var k := Walk(ws[1..], r - ws[0]);
      assert ws[..k + 1][1..] == ws[1..][..k] && ws[..k + 2][1..] == ws[1..][..k + 1];
    }
  }

  lemma WalkIff(ws: seq<real>, r: real, i: nat)
    requires i < |ws| && 0.0 <= r < Sum(ws) && forall k :: 0 <= k < |ws| ==> ws[k] >= 0.0
    ensures Walk(ws, r) == i <==> Sum(ws[..i]) <= r < Sum(ws[..i]) + ws[i]
  {
    var k := Walk(ws, r);
    WalkLands(ws, r);
    PrefixSum(ws, i);
    PrefixSum(ws, k);
    if i < k { PrefixSumMonotone(ws, i + 1, k); }
    if k < i { PrefixSumMonotone(ws, k + 1, i); }
  }

  /** A pick is exactly the inverse-CDF interval of its weight: entry `i` is picked iff the
      draw, scaled to the total, falls in the interval of width `ws[i]` after its
      predecessors. */
  lemma PickIsInverseCdf(ws: seq<real>, u: Unit, i: nat)
    requires i < |ws| && Sum(ws) > 0.0 && forall k :: 0 <= k < |ws| ==> ws[k] >= 0.0
    ensures PickIndex(ws, u) == i <==> FallsIn(u, Sum(ws), Sum(ws[..i]), Sum(ws[..i]) + ws[i])
  {
    hide Scale, FallsIn;
    WalkIff(ws, Scale(u, Sum(ws)), i);
    FallsScaled(u, Sum(ws), Sum(ws[..i]), Sum(ws[..i]) + ws[i]);
  }

  /** The draw, stretched over the total, falls in [low, high). */
  ghost predicate FallsIn(u: Unit, total: real, low: real, high: real) { low <= u * total < high }

  lemma FallsScaled(u: Unit, total: real, low: real, high: real)
    requires total > 0.0
    ensures FallsIn(u, total, low, high) <==> low <= Scale(u, total) < high
  {}

  lemma UniformIsFloor(size: nat, u: Unit)
    requires size > 0
    ensures var k := UniformIndex(size, u); FallsIn(u, size as real, k as real, (k + 1) as real)
  {
    var x := Scale(u, size as real);
    assert x.Floor as real <= x < (x.Floor + 1) as real;
  }

  /** The pick on a directory, from the draw: with weights w of total W, the gateway of the
      pool in whose interval of width w_i the point u * W falls; without weight, the one at
      the whole part of u times the size of the pool. Nothing is picked from an empty pool. */
  lemma PickFollowsTheDraw(gs: seq<GatewayEntry>, exclude: set<string>, u: Unit) returns (i: nat)
    ensures |Pool(gs, exclude)| == 0 <==> Pick(gs, exclude, u).None?
    ensures |Pool(gs, exclude)| > 0 ==>
              var pool := Pool(gs, exclude); var w := Weights(pool);
              && i < |pool| && Pick(gs, exclude, u) == Some(pool[i])
              && (Sum(w) > 0.0 ==> FallsIn(u, Sum(w), Sum(w[..i]), Sum(w[..i + 1])))
              && (Sum(w) <= 0.0 ==> FallsIn(u, |pool| as real, i as real, (i + 1) as real))
  {
    hide Pool, FallsIn;
    var pool := Pool(gs, exclude);
    i := 0;
    if |pool| > 0 {
      var w := Weights(pool);
      i := PickIndex(w, u);
      hide PickIndex, UniformIndex;
      if Sum(w) > 0.0 {
        PickIsInverseCdf(w, u, i);
        PrefixSum(w, i);
      } else {
        UnweightedPick(w, u);
      }
    }
  }

  lemma UnweightedPick(ws: seq<real>, u: Unit)
    requires |ws| > 0 && Sum(ws) <= 0.0
    ensures FallsIn(u, |ws| as real, PickIndex(ws, u) as real, (PickIndex(ws, u) + 1) as real)
  {
    UniformIsFloor(|ws|, u);
  }

  /** Who is in the pool: every gateway not excluded that is not down, or every one not
      excluded when all of those are down, as often and in the order the directory lists it. */
  lemma PoolMembers(gs: seq<GatewayEntry>, exclude: set<string>, g: GatewayEntry)
    ensures g in Pool(gs, exclude) <==>
            g in gs && g.onion !in exclude && (!Down(g) || forall h :: h in gs && h.onion !in exclude ==> Down(h))
    ensures g in Pool(gs, exclude) ==> multiset(Pool(gs, exclude))[g] == multiset(gs)[g]
    ensures Subsequence(Pool(gs, exclude), gs)
  {
    PoolInOrder(gs, exclude);
    var all := Remaining(gs, exclude);
    if g.onion !in exclude { RemainingCounts(gs, exclude, g); }
    if !Down(g) { HealthyCounts(all, g); }
    if h :| h in gs && h.onion !in exclude && !Down(h) { assert h in Healthy(all); }
    if |Healthy(all)| > 0 { assert Healthy(all)[0] in Healthy(all); }
  }

  lemma PoolInOrder(gs: seq<GatewayEntry>, exclude: set<string>)
    ensures Subsequence(Pool(gs, exclude), gs)
  {
    RemainingInOrder(gs, exclude);
    HealthyInOrder(Remaining(gs, exclude));
    SubsequenceTransitive(Healthy(Remaining(gs, exclude)), Remaining(gs, exclude), gs);
  }

  lemma {:induction false} RemainingInOrder(gs: seq<GatewayEntry>, exclude: set<string>)
    ensures Subsequence(Remaining(gs, exclude), gs)
    decreases |gs|
  {
    if |gs| > 0 {
      RemainingInOrder(gs[1..], exclude);
      var rest := Remaining(gs[1..], exclude);
      assert ([gs[0]] + rest)[1..] == rest && [] + rest == rest;
    }
  }

  lemma {:induction false} HealthyInOrder(gs: seq<GatewayEntry>)
    ensures Subsequence(Healthy(gs), gs)
    decreases |gs|
  {
    if |gs| > 0 {
      HealthyInOrder(gs[1..]);
      var rest := Healthy(gs[1..]);
      assert ([gs[0]] + rest)[1..] == rest && [] + rest == rest;
    }
  }

  lemma {:induction false} RemainingCounts(gs: seq<GatewayEntry>, exclude: set<string>, g: GatewayEntry)
    requires g.onion !in exclude
    ensures multiset(Remaining(gs, exclude))[g] == multiset(gs)[g]
    decreases |gs|
  {
    if |gs| > 0 {
      RemainingCounts(gs[1..], exclude, g);
      assert gs == [gs[0]] + gs[1..];
    }
  }

  lemma {:induction false} HealthyCounts(gs: seq<GatewayEntry>, g: GatewayEntry)
    requires !Down(g)
    ensures multiset(Healthy(gs))[g] == multiset(gs)[g]
    decreases |gs|
  {
    if |gs| > 0 {
      HealthyCounts(gs[1..], g);
      assert gs == [gs[0]] + gs[1..];
    }
  }

  /** Clamping gives the weight in [0, 1000] nearest to a finite one, and 1 for anything else. */
  lemma ClampIsNearest(w: Double, other: real)
    ensures 0.0 <= ClampWeight(Some(w)) <= 1000.0
    ensures w.Finite? && 0.0 <= other <= 1000.0 ==> Distance(w.value, ClampWeight(Some(w))) <= Distance(w.value, other)
    ensures w.NonFinite? ==> ClampWeight(Some(w)) == 1.0
    ensures ClampWeight(None) == 1.0
  {}

  function Distance(a: real, b: real): real { if a < b then b - a else a - b }

  /** Hence the share of a gateway is at most 1000 of the total, whatever it attests. */
  lemma AttestedWeightIsCapped(g: GatewayEntry)
    ensures Weight(g) == if g.weight <= 1000 then g.weight as real else 1000.0
  {}

  /** With a positive total, an entry of weight zero is never picked. */
  lemma ZeroWeightNeverPicked(ws: seq<real>, u: Unit)
    requires |ws| > 0 && Sum(ws) > 0.0 && forall k :: 0 <= k < |ws| ==> ws[k] >= 0.0
    ensures ws[PickIndex(ws, u)] > 0.0
  {
    PickIsInverseCdf(ws, u, PickIndex(ws, u));
  }

  // ------------------------------------------------------------------------
  // The failover order
  // ------------------------------------------------------------------------

  /** 0: up with weight, 1: up without, 2: down with weight, 3: down without. */
  function Class(g: GatewayEntry): nat {
    (if Down(g) then 2 else 0) + (if g.weight == 0 then 1 else 0)
  }

  function Onions(gs: seq<GatewayEntry>): set<string> { set g | g in gs :: g.onion }

  lemma {:induction false} SomePositive(ws: seq<real>, i: nat)
    requires i < |ws| && ws[i] > 0.0 && forall k :: 0 <= k < |ws| ==> ws[k] >= 0.0
    ensures Sum(ws) > 0.0
  {
    PrefixSum(ws, i);
    PrefixSumMonotone(ws, 0, i);
    PrefixSumMonotone(ws, i + 1, |ws|);
    assert ws[..0] == [] && ws[..|ws|] == ws;
  }

  /** A pick comes from the gateways left and is of the best class left. */
  lemma PickIsBestClass(gs: seq<GatewayEntry>, exclude: set<string>, u: Unit)
    ensures Pick(gs, exclude, u).None? <==> forall g :: g in gs ==> g.onion in exclude
    ensures Pick(gs, exclude, u).Some? ==>
      var g := Pick(gs, exclude, u).value;
      && g in gs && g.onion !in exclude
      && forall h :: h in gs && h.onion !in exclude ==> Class(g) <= Class(h)
  {
    hide Weight, PickIndex;
    var all := Remaining(gs, exclude);
    var pool := Pool(gs, exclude);
    if |pool| > 0 {
      var ws := Weights(pool);
      forall k | 0 <= k < |pool| ensures ws[k] >= 0.0 { AttestedWeightIsCapped(pool[k]); }
      var g := pool[PickIndex(ws, u)];
      assert g in pool;
      forall h | h in gs && h.onion !in exclude ensures Class(g) <= Class(h) {
        assert h in all;
        if Down(g) == Down(h) && h.weight > 0 {
          assert h in pool;
          var i :| 0 <= i < |pool| && pool[i] == h;
          AttestedWeightIsCapped(h);
          AttestedWeightIsCapped(g);
          SomePositive(ws, i);
          ZeroWeightNeverPicked(ws, u);
        }
      }
    }
  }

  /** Picks until every onion is taken: the order of `selection_order`. */
  function Order(gs: seq<GatewayEntry>, exclude: set<string>, stream: nat -> Unit, n: nat): seq<GatewayEntry>
    decreases |Onions(gs) - exclude|
  {
    PickIsBestClass(gs, exclude, stream(n));
    var g := Pick(gs, exclude, stream(n));
    if g.None? then []
    else
      Shrinks(gs, exclude, g.value.onion);
      [g.value] + Order(gs, exclude + {g.value.onion}, stream, n + 1)
  }

  lemma Shrinks(gs: seq<GatewayEntry>, exclude: set<string>, onion: string)
    requires onion in Onions(gs) && onion !in exclude
    ensures |Onions(gs) - (exclude + {onion})| < |Onions(gs) - exclude|
  {
    assert Onions(gs) - (exclude + {onion}) == Onions(gs) - exclude - {onion};
  }

  lemma OrderUnfolds(gs: seq<GatewayEntry>, exclude: set<string>, stream: nat -> Unit, n: nat)
    ensures var g := Pick(gs, exclude, stream(n));
            && (g.None? ==> Order(gs, exclude, stream, n) == [])
            && (g.Some? ==>
                && |Onions(gs) - (exclude + {g.value.onion})| < |Onions(gs) - exclude|
                && Order(gs, exclude, stream, n) == [g.value] + Order(gs, exclude + {g.value.onion}, stream, n + 1))
  {
    var g := Pick(gs, exclude, stream(n));
    PickIsBestClass(gs, exclude, stream(n));
    if g.Some? { Shrinks(gs, exclude, g.value.onion); }
  }

  /** Place `k` of an order is the pick of draw `k` among those not placed before it, and the
      order ends when nothing is left to pick. */
  lemma {:induction false} OrderIsPicks(gs: seq<GatewayEntry>, exclude: set<string>, stream: nat -> Unit, n: nat, k: nat)
    requires k <= |Order(gs, exclude, stream, n)|
    ensures var order := Order(gs, exclude, stream, n);
            Pick(gs, exclude + Onions(order[..k]), stream(n + k)) == if k < |order| then Some(order[k]) else None
    decreases |Onions(gs) - exclude|
  {
    hide Pick, Order, Onions;
    OrderUnfolds(gs, exclude, stream, n);
    var order, g := Order(gs, exclude, stream, n), Pick(gs, exclude, stream(n));
    if k == 0 {
      assert order[..0] == [] && Onions([]) == {} by { NoOnions(); }
      assert exclude + {} == exclude;
    } else {
      var rest := Order(gs, exclude + {g.value.onion}, stream, n + 1);
      OrderIsPicks(gs, exclude + {g.value.onion}, stream, n + 1, k - 1);
      assert order[..k] == [g.value] + rest[..k - 1];
      OnionsCons(g.value, rest[..k - 1]);
      assert exclude + Onions(order[..k]) == exclude + {g.value.onion} + Onions(rest[..k - 1]);
    }
  }

  lemma NoOnions()
    ensures Onions([]) == {}
  {}

  method SelectionOrder(gs: seq<GatewayEntry>, rng: Rng) returns (order: seq<GatewayEntry>)
    modifies rng
    ensures order == Order(gs, {}, rng.stream, old(rng.next))
    ensures rng.next == old(rng.next) + |order|
  {
    order := FillOrder(gs, {}, rng);
  }

  /** The pick loop shared by both orders, from the onions already taken. */
  method FillOrder(gs: seq<GatewayEntry>, taken: set<string>, rng: Rng) returns (order: seq<GatewayEntry>)
    modifies rng
    ensures order == Order(gs, taken, rng.stream, old(rng.next))
    ensures rng.next == old(rng.next) + |order|
  {
    hide Pick, Order;
    order := [];
    var exclude := taken;
    while true
      invariant rng.next == old(rng.next) + |order|
      invariant Order(gs, taken, rng.stream, old(rng.next)) == order + Order(gs, exclude, rng.stream, rng.next)
      decreases |Onions(gs) - exclude|
    {
      OrderUnfolds(gs, exclude, rng.stream, rng.next);
      var g := PickGateway(gs, exclude, rng);
      if g.None? {
        return;
      }
      exclude := exclude + {g.value.onion};
      order := order + [g.value];
    }
  }

  /** What both order functions promise, beyond the onions already taken: each distinct
      onion once, and the classes never improve along the order. */
  ghost predicate GoodOrder(gs: seq<GatewayEntry>, exclude: set<string>, order: seq<GatewayEntry>) {
    && (forall i :: 0 <= i < |order| ==> order[i] in gs && order[i].onion !in exclude)
    && (forall i, j :: 0 <= i < j < |order| ==> order[i].onion != order[j].onion)
    && (forall i, j :: 0 <= i < j < |order| ==> Class(order[i]) <= Class(order[j]))
    && Onions(order) == Onions(gs) - exclude
  }

  lemma {:induction false} OrderIsGood(gs: seq<GatewayEntry>, exclude: set<string>, stream: nat -> Unit, n: nat)
    ensures GoodOrder(gs, exclude, Order(gs, exclude, stream, n))
    decreases |Onions(gs) - exclude|
  {
    PickIsBestClass(gs, exclude, stream(n));
    var g := Pick(gs, exclude, stream(n));
    if g.Some? {
      var onion := g.value.onion;
      Shrinks(gs, exclude, onion);
      OrderIsGood(gs, exclude + {onion}, stream, n + 1);
      ConsIsGood(gs, exclude, g.value, Order(gs, exclude + {onion}, stream, n + 1));
    }
  }

  lemma ConsIsGood(gs: seq<GatewayEntry>, exclude: set<string>, g: GatewayEntry, rest: seq<GatewayEntry>)
    requires g in gs && g.onion !in exclude && GoodOrder(gs, exclude + {g.onion}, rest)
    requires forall h :: h in gs && h.onion !in exclude ==> Class(g) <= Class(h)
    ensures GoodOrder(gs, exclude, [g] + rest)
  {
    var order := [g] + rest;
    OnionsCons(g, rest);
    forall i | 0 <= i < |order| ensures order[i] in gs && order[i].onion !in exclude {
      if i > 0 { assert order[i] == rest[i - 1]; }
    }
    forall i, j | 0 <= i < j < |order|
      ensures order[i].onion != order[j].onion && Class(order[i]) <= Class(order[j])
    {
      assert order[j] == rest[j - 1];
      if i > 0 { assert order[i] == rest[i - 1]; }
    }
  }

  lemma OnionsCons(g: GatewayEntry, rest: seq<GatewayEntry>)
    ensures Onions([g] + rest) == {g.onion} + Onions(rest)
  {}

  /** `selection_order`: every distinct onion exactly once, no "down" gateway before one
      that is not, and within a health class no weightless gateway before a weighted one. */
  lemma SelectionOrderIsSound(gs: seq<GatewayEntry>, stream: nat -> Unit, n: nat)
    ensures var order := Order(gs, {}, stream, n);
            && (forall i :: 0 <= i < |order| ==> order[i] in gs)
            && Onions(order) == Onions(gs)
            && (forall i, j :: 0 <= i < j < |order| ==> order[i].onion != order[j].onion)
            && UpFirst(order) && WeightedFirst(order)
  {
    OrderIsGood(gs, {}, stream, n);
    ClassesOrder(Order(gs, {}, stream, n));
    assert Onions(gs) - {} == Onions(gs);
  }

  ghost predicate UpFirst(order: seq<GatewayEntry>) {
    forall i, j :: 0 <= i < j < |order| && Down(order[i]) ==> Down(order[j])
  }

  ghost predicate WeightedFirst(order: seq<GatewayEntry>) {
    forall i, j :: 0 <= i < j < |order| && Down(order[i]) == Down(order[j]) && order[i].weight == 0 ==>
      order[j].weight == 0
  }

  lemma ClassesOrder(order: seq<GatewayEntry>)
    requires forall i, j :: 0 <= i < j < |order| ==> Class(order[i]) <= Class(order[j])
    ensures UpFirst(order) && WeightedFirst(order)
  {}
}
