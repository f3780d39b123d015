/** The fixed-depth incremental Merkle tree, stored as an array of levels that holds only
    nodes with a leaf below them, against the full binary tree padded with the zero value.
    `poseidon2` is an arbitrary function `h`, assumed injective only where a lemma says so. */
module MembershipTree {
  import opened Common

  type Field = int
  type Hash = (Field, Field) -> Field

  // ------------------------------------------------------------------------
  // The padded tree
  // ------------------------------------------------------------------------

  /** The root of an empty subtree of height `l`. */
  function Zero(h: Hash, z: Field, l: nat): Field {
    if l == 0 then z else h(Zero(h, z, l - 1), Zero(h, z, l - 1))
  }

  function Leaf(z: Field, leaves: seq<Field>, i: nat): Field {
    if i < |leaves| then leaves[i] else z
  }

  /** Node `i` of level `l` when every missing leaf is the zero value. */
  function Node(h: Hash, z: Field, leaves: seq<Field>, l: nat, i: nat): Field {
    if l == 0 then Leaf(z, leaves, i)
    else h(Node(h, z, leaves, l - 1, 2 * i), Node(h, z, leaves, l - 1, 2 * i + 1))
  }

  /** How many nodes of level `l` have a leaf below them. */
  function Width(n: nat, l: nat): nat {
    if l == 0 then n else (Width(n, l - 1) + 1) / 2
  }

  function Level(h: Hash, z: Field, leaves: seq<Field>, l: nat): (r: seq<Field>)
    ensures |r| == Width(|leaves|, l)
    ensures forall i :: 0 <= i < |r| ==> r[i] == Node(h, z, leaves, l, i)
  {
    seq(Width(|leaves|, l), i requires 0 <= i => Node(h, z, leaves, l, i))
  }

  /** The stored levels of a tree: without leaves, only the empty root is stored. */
  ghost predicate Stores(h: Hash, z: Field, depth: nat, leaves: seq<Field>, nodes: seq<seq<Field>>) {
    && |nodes| == depth + 1 && nodes[0] == leaves
    && (|leaves| > 0 ==> forall l :: 0 <= l <= depth ==> nodes[l] == Level(h, z, leaves, l))
    && (|leaves| == 0 && depth > 0 ==>
        nodes[depth] == [Zero(h, z, depth)] && forall l :: 0 <= l < depth ==> nodes[l] == [])
  }

  /** Beyond the stored nodes of a level there are only empty subtrees. */
  lemma {:induction false} EmptyBeyondWidth(h: Hash, z: Field, leaves: seq<Field>, l: nat, i: nat)
    requires i >= Width(|leaves|, l)
    ensures Node(h, z, leaves, l, i) == Zero(h, z, l)
  {
    if l > 0 {
      EmptyBeyondWidth(h, z, leaves, l - 1, 2 * i);
      EmptyBeyondWidth(h, z, leaves, l - 1, 2 * i + 1);
    }
  }

  lemma {:induction false} WidthPositive(n: nat, l: nat)
    ensures Width(n, l) > 0 <==> n > 0
  {
    if l > 0 { WidthPositive(n, l - 1); }
  }

  // ------------------------------------------------------------------------
  // The stored tree
  // ------------------------------------------------------------------------

  /** `row.get(i).copied().unwrap_or(zero)` */
  function Get(row: seq<Field>, i: nat, zero: Field): Field {
    if i < |row| then row[i] else zero
  }

  class MerkleTree {
    const h: Hash
    const zero: Field
    const depth: nat
    var zeroes: seq<Field>
    var nodes: seq<seq<Field>>

    ghost predicate Valid()
      reads this
    {
      && depth >= 1
      && |zeroes| == depth && (forall l :: 0 <= l < depth ==> zeroes[l] == Zero(h, zero, l))
      && |nodes| > 0 && Stores(h, zero, depth, nodes[0], nodes)
    }

    constructor (h: Hash, zero: Field, depth: nat, leaves: seq<Field>)
      requires depth >= 1
      ensures Valid() && nodes[0] == leaves
      ensures this.h == h && this.zero == zero && this.depth == depth
    {
      this.h, this.zero, this.depth := h, zero, depth;
      zeroes := [];
      nodes := [leaves];
      new;
      var z := zero;
      for l := 0 to depth
        invariant |zeroes| == l && z == Zero(h, zero, l)
        invariant forall k :: 0 <= k < l ==> zeroes[k] == Zero(h, zero, k)
        invariant nodes == [leaves]
        modifies this
      {
        zeroes := zeroes + [z];
        z := h(z, z);
      }
      if |leaves| == 0 {
        nodes := seq(depth, l => []) + [[z]];
        return;
      }
      for l := 0 to depth
        invariant |zeroes| == depth && (forall k :: 0 <= k < depth ==> zeroes[k] == Zero(h, zero, k))
        invariant |nodes| == l + 1 && nodes[0] == leaves
        invariant forall k :: 0 <= k <= l ==> nodes[k] == Level(h, zero, leaves, k)
        modifies this
      {
        var row := Parents(h, leaves, zero, l, nodes[l], zeroes[l]);
        nodes := nodes + [row];
      }
    }

    /** One level up: pairs of stored nodes, a missing right child being the level's zero. */
    static method Parents(h: Hash, ghost leaves: seq<Field>, ghost zero: Field, ghost l: nat, row: seq<Field>, fill: Field)
        returns (parents: seq<Field>)
      requires row == Level(h, zero, leaves, l) && fill == Zero(h, zero, l)
      ensures parents == Level(h, zero, leaves, l + 1)
    {
      parents := [];
      var count := (|row| + 1) / 2;
      for i := 0 to count
        invariant |parents| == i
        invariant forall k :: 0 <= k < i ==> parents[k] == Node(h, zero, leaves, l + 1, k)
      {
        if 2 * i + 1 >= |row| { EmptyBeyondWidth(h, zero, leaves, l, 2 * i + 1); }
        parents := parents + [h(Get(row, 2 * i, fill), Get(row, 2 * i + 1, fill))];
      }
    }

    function Root(): Field
      requires Valid()
      reads this
    {
      RootStored();
      nodes[depth][0]
    }

    lemma RootStored()
      requires Valid()
      ensures |nodes[depth]| > 0 && nodes[depth][0] == Node(h, zero, nodes[0], depth, 0)
    {
      WidthPositive(|nodes[0]|, depth);
      if |nodes[0]| == 0 {
        EmptyBeyondWidth(h, zero, nodes[0], depth, 0);
      }
    }

    /** `remove`: zero the leaf in place, then rebuild every level above it. The result is
        the tree a fresh build over the zeroed leaves stores. */
    method Remove(index: nat)
      requires Valid() && index < |nodes[0]|
      modifies this`nodes
      ensures Valid() && nodes[0] == old(nodes[0])[index := zero]
    {
      nodes := nodes[0 := nodes[0][index := zero]];
      Recompute();
    }

    method Recompute()
      requires depth >= 1 && |nodes| == depth + 1 && |nodes[0]| > 0
      requires |zeroes| == depth && forall l :: 0 <= l < depth ==> zeroes[l] == Zero(h, zero, l)
      modifies this`nodes
      ensures Valid() && nodes[0] == old(nodes[0])
    {
      ghost var leaves := nodes[0];
      for l := 0 to depth
        invariant |nodes| == depth + 1 && nodes[0] == leaves
        invariant forall k :: 0 <= k <= l ==> nodes[k] == Level(h, zero, leaves, k)
      {
        var row := Parents(h, leaves, zero, l, nodes[l], zeroes[l]);
        nodes := nodes[l + 1 := row];
      }
    }

    /** `index_of`: the first position of a leaf. */
    method IndexOf(leaf: Field) returns (r: Option<nat>)
      requires Valid()
      ensures r.None? ==> leaf !in nodes[0]
      ensures r.Some? ==> r.value < |nodes[0]| && nodes[0][r.value] == leaf && leaf !in nodes[0][..r.value]
    {
      for i := 0 to |nodes[0]|
        invariant leaf !in nodes[0][..i]
      {
        if nodes[0][i] == leaf {
          return Some(i);
        }
      }
      return None;
    }

    /** `create_proof`: one sibling and one direction bit per level. */
    method CreateProof(index: nat) returns (siblings: seq<Field>, path: seq<nat>)
      requires Valid() && index < |nodes[0]|
      ensures siblings == Siblings(h, zero, nodes[0], index, depth) && path == Path(index, depth)
    {
      hide Node, Width;
      siblings, path := [], [];
      var idx := index;
      for l := 0 to depth
        invariant idx == Shift(index, l)
        invariant siblings == Siblings(h, zero, nodes[0], index, l) && path == Path(index, l)
      {
        var position := idx % 2;
        path := path + [position];
        var sib := if position == 0 then idx + 1 else idx - 1;
        if sib >= |nodes[l]| { EmptyBeyondWidth(h, zero, nodes[0], l, sib); }
        siblings := siblings + [Get(nodes[l], sib, zeroes[l])];
        idx := idx / 2;
      }
    }
  }

  /** Any sequence of removals leaves the tree of a fresh build over the leaves with
      exactly those positions zeroed. */
  method RemoveEach(tree: MerkleTree, indices: seq<nat>)
    requires tree.Valid() && forall k :: 0 <= k < |indices| ==> indices[k] < |tree.nodes[0]|
    modifies tree`nodes
    ensures tree.Valid()
    ensures tree.nodes[0] == Zeroed(tree.zero, old(tree.nodes[0]), indices)
  {
    for k := 0 to |indices|
      invariant tree.Valid()
      invariant tree.nodes[0] == Zeroed(tree.zero, old(tree.nodes[0]), indices[..k])
    {
      tree.Remove(indices[k]);
      assert indices[..k + 1] == indices[..k] + [indices[k]];
    }
    assert indices[..|indices|] == indices;
  }

  function Zeroed(z: Field, leaves: seq<Field>, indices: seq<nat>): (r: seq<Field>)
    ensures |r| == |leaves| && forall i :: 0 <= i < |leaves| ==> r[i] == if i in indices then z else leaves[i]
  {
    seq(|leaves|, i requires 0 <= i < |leaves| => if i in indices then z else leaves[i])
  }

  // ------------------------------------------------------------------------
  // The root is the root of the full padded tree
  // ------------------------------------------------------------------------

  function Pow2(d: nat): (p: nat)
    ensures p > 0
  {
    if d == 0 then 1 else 2 * Pow2(d - 1)
  }

  /** The root of a perfect binary tree over `row`. */
  function FullRoot(h: Hash, row: seq<Field>, d: nat): Field
    requires |row| == Pow2(d)
    decreases d
  {
    if d == 0 then row[0]
    else h(FullRoot(h, row[..Pow2(d - 1)], d - 1), FullRoot(h, row[Pow2(d - 1)..], d - 1))
  }

  /** `n` leaves from `start` on, padded with the zero value. */
  function Padded(z: Field, leaves: seq<Field>, start: nat, n: nat): (r: seq<Field>)
    ensures |r| == n && forall i :: 0 <= i < n ==> r[i] == Leaf(z, leaves, start + i)
  {
    seq(n, i requires 0 <= i => Leaf(z, leaves, start + i))
  }

  lemma Halves(i: nat, half: nat)
    ensures (2 * i) * half == i * (2 * half)
    ensures (2 * i + 1) * half == i * (2 * half) + half
  {}

  lemma {:induction false} NodeIsFullRoot(h: Hash, z: Field, leaves: seq<Field>, l: nat, i: nat, start: nat)
    requires start == i * Pow2(l)
    ensures Node(h, z, leaves, l, i) == FullRoot(h, Padded(z, leaves, start, Pow2(l)), l)
  {
    if l > 0 {
      var half := Pow2(l - 1);
      var row := Padded(z, leaves, start, Pow2(l));
      Halves(i, half);
      NodeIsFullRoot(h, z, leaves, l - 1, 2 * i, start);
      NodeIsFullRoot(h, z, leaves, l - 1, 2 * i + 1, start + half);
      assert row[..half] == Padded(z, leaves, start, half);
      assert row[half..] == Padded(z, leaves, start + half, half);
    }
  }

  /** For every leaf list, empty or not, the stored root is the root of the perfect tree of
      2^depth leaves: the given leaves (the first 2^depth of them) and zero values. */
  lemma RootIsPaddedRoot(tree: MerkleTree)
    requires tree.Valid()
    ensures tree.Root() == FullRoot(tree.h, Padded(tree.zero, tree.nodes[0], 0, Pow2(tree.depth)), tree.depth)
  {
    tree.RootStored();
    NodeIsFullRoot(tree.h, tree.zero, tree.nodes[0], tree.depth, 0, 0);
  }

  // ------------------------------------------------------------------------
  // Membership proofs
  // ------------------------------------------------------------------------

  /** `i` with its `l` lowest bits dropped. */
  function Shift(i: nat, l: nat): nat {
    if l == 0 then i else Shift(i, l - 1) / 2
  }

  function Partner(i: nat): nat {
    if i % 2 == 0 then i + 1 else i - 1
  }

  /** The sibling met at level `l` on the way up from leaf `i`. */
  function Sibling(h: Hash, z: Field, leaves: seq<Field>, i: nat, l: nat): Field {
    Node(h, z, leaves, l, Partner(Shift(i, l)))
  }

  function Siblings(h: Hash, z: Field, leaves: seq<Field>, i: nat, d: nat): (r: seq<Field>)
    ensures |r| == d
  {
    if d == 0 then [] else Siblings(h, z, leaves, i, d - 1) + [Sibling(h, z, leaves, i, d - 1)]
  }

  function Path(i: nat, d: nat): (r: seq<nat>)
    ensures |r| == d
  {
    if d == 0 then [] else Path(i, d - 1) + [Shift(i, d - 1) % 2]
  }

  /** What a verifier computes from a leaf and its proof. */
  function Fold(h: Hash, leaf: Field, siblings: seq<Field>, path: seq<nat>): Field
    requires |siblings| == |path|
    decreases |path|
  {
    if |path| == 0 then leaf
    else
      var d := |path| - 1;
      var below := Fold(h, leaf, siblings[..d], path[..d]);
      if path[d] == 0 then h(below, siblings[d]) else h(siblings[d], below)
  }

  lemma {:induction false} FoldClimbs(h: Hash, z: Field, leaves: seq<Field>, i: nat, d: nat)
    ensures Fold(h, Leaf(z, leaves, i), Siblings(h, z, leaves, i, d), Path(i, d)) == Node(h, z, leaves, d, Shift(i, d))
  {
    if d > 0 {
      FoldClimbs(h, z, leaves, i, d - 1);
      var xs, path, x := Siblings(h, z, leaves, i, d), Path(i, d), Shift(i, d - 1);
      assert xs[..d - 1] == Siblings(h, z, leaves, i, d - 1) && path[..d - 1] == Path(i, d - 1);
      assert xs[d - 1] == Sibling(h, z, leaves, i, d - 1) && path[d - 1] == x % 2;
      Children(h, z, leaves, d, x);
    }
  }

  lemma Children(h: Hash, z: Field, leaves: seq<Field>, d: nat, x: nat)
    requires d > 0
    ensures Node(h, z, leaves, d, x / 2)
         == if x % 2 == 0 then h(Node(h, z, leaves, d - 1, x), Node(h, z, leaves, d - 1, Partner(x)))
            else h(Node(h, z, leaves, d - 1, Partner(x)), Node(h, z, leaves, d - 1, x))
  {}

  lemma {:induction false} ShiftDrops(i: nat, l: nat)
    ensures Shift(i, l) * Pow2(l) <= i < Shift(i, l) * Pow2(l) + Pow2(l)
  {
    if l > 0 {
      ShiftDrops(i, l - 1);
      var x, half := Shift(i, l - 1), Pow2(l - 1);
      SplitBit(x, half);
      assert (x % 2) * half == if x % 2 == 0 then 0 else half;
    }
  }

  lemma InRange(i: nat, x: nat, p: nat)
    requires x * p <= i < x * p + p
    ensures x == 0 <==> i < p
  {}

  /** Completeness: folding a leaf through its own proof reaches the stored root, for every
      index the depth can address; the tree itself does not limit the leaf count, and
      beyond that range the proof leads to another top node instead. */
  lemma ProofFoldsToRoot(tree: MerkleTree, index: nat)
    requires tree.Valid() && index < |tree.nodes[0]|
    ensures var folded := Fold(tree.h, tree.nodes[0][index],
                               Siblings(tree.h, tree.zero, tree.nodes[0], index, tree.depth), Path(index, tree.depth));
            && folded == Node(tree.h, tree.zero, tree.nodes[0], tree.depth, Shift(index, tree.depth))
            && (index < Pow2(tree.depth) ==> folded == tree.Root())
            && (Shift(index, tree.depth) == 0 <==> index < Pow2(tree.depth))
  {
    hide Node, Siblings, Path, Fold, Shift, Pow2;
    FoldClimbs(tree.h, tree.zero, tree.nodes[0], index, tree.depth);
    ShiftDrops(index, tree.depth);
    InRange(index, Shift(index, tree.depth), Pow2(tree.depth));
    tree.RootStored();
  }

  lemma {:induction false} FullRootInjective(h: Hash, a: seq<Field>, b: seq<Field>, d: nat)
    requires Injective(h) && |a| == |b| == Pow2(d) && FullRoot(h, a, d) == FullRoot(h, b, d)
    ensures a == b
    decreases d
  {
    if d > 0 {
      var half := Pow2(d - 1);
      NoCollision(h, FullRoot(h, a[..half], d - 1), FullRoot(h, a[half..], d - 1),
                  FullRoot(h, b[..half], d - 1), FullRoot(h, b[half..], d - 1));
      FullRootInjective(h, a[..half], b[..half], d - 1);
      FullRootInjective(h, a[half..], b[half..], d - 1);
      assert a == a[..half] + a[half..] && b == b[..half] + b[half..];
    }
  }

  /** The 2^depth padded leaves among which `index` lies. */
  function Block(tree: MerkleTree, index: nat): seq<Field>
    reads tree
    requires tree.Valid()
  {
    Padded(tree.zero, tree.nodes[0], Shift(index, tree.depth) * Pow2(tree.depth), Pow2(tree.depth))
  }

  /** Exactly which proofs lead to the root under an injective hash, leaves past the capacity
      included: those of a leaf whose padded block equals the first. Every index below the
      capacity is in the first block. */
  lemma ProofReachesRootIff(tree: MerkleTree, index: nat)
    requires tree.Valid() && index < |tree.nodes[0]| && Injective(tree.h)
    ensures var folded := Fold(tree.h, tree.nodes[0][index],
                               Siblings(tree.h, tree.zero, tree.nodes[0], index, tree.depth), Path(index, tree.depth));
            folded == tree.Root() <==> Block(tree, index) == Block(tree, 0)
    ensures index < Pow2(tree.depth) ==> Block(tree, index) == Block(tree, 0)
  {
    hide Node, Siblings, Path, Fold, Pow2, FullRoot, Injective;
    var x, p := Shift(index, tree.depth), Pow2(tree.depth);
    ProofFoldsToRoot(tree, index);
    ShiftZero(tree.depth);
    RootIsPaddedRoot(tree);
    NodeIsFullRoot(tree.h, tree.zero, tree.nodes[0], tree.depth, x, x * p);
    assert 0 * p == 0;
    if FullRoot(tree.h, Block(tree, index), tree.depth) == FullRoot(tree.h, Block(tree, 0), tree.depth) {
      FullRootInjective(tree.h, Block(tree, index), Block(tree, 0), tree.depth);
    }
  }

  lemma {:induction false} ShiftZero(l: nat)
    ensures Shift(0, l) == 0
  {
    if l > 0 { ShiftZero(l - 1); }
  }

  /** A hash for the witness below. */
  function Mix(a: Field, b: Field): Field { a + 10 * b }

  /** A tree over its capacity: three leaves at depth 1. The third is stored, and its proof
      does not lead to the root. */
  method Overfull() returns (tree: MerkleTree)
    ensures tree.Valid() && tree.depth == 1 && tree.nodes[0] == [1, 2, 3] && Pow2(1) == 2
    ensures Fold(tree.h, 3, Siblings(tree.h, tree.zero, tree.nodes[0], 2, 1), Path(2, 1)) != tree.Root()
  {
    tree := new MerkleTree(Mix, 0, 1, [1, 2, 3]);
    assert Shift(2, 1) == Shift(2, 0) / 2 == 1;
    ProofFoldsToRoot(tree, 2);
    tree.RootStored();
    assert Node(Mix, 0, [1, 2, 3], 1, 0) == Mix(Node(Mix, 0, [1, 2, 3], 0, 0), Node(Mix, 0, [1, 2, 3], 0, 1)) == 21;
    assert Node(Mix, 0, [1, 2, 3], 1, 1) == Mix(Node(Mix, 0, [1, 2, 3], 0, 2), Node(Mix, 0, [1, 2, 3], 0, 3)) == 3;
  }

  function FromBits(path: seq<nat>): nat {
    if |path| == 0 then 0
    else FromBits(path[..|path| - 1]) + path[|path| - 1] * Pow2(|path| - 1)
  }

  /** The direction bits are the binary expansion of the index. */
  lemma {:induction false} PathIsBinary(i: nat, d: nat)
    ensures FromBits(Path(i, d)) + Shift(i, d) * Pow2(d) == i
  {
    if d > 0 {
      PathIsBinary(i, d - 1);
      assert Path(i, d)[..d - 1] == Path(i, d - 1);
      SplitBit(Shift(i, d - 1), Pow2(d - 1));
    }
  }

  lemma SplitBit(x: nat, half: nat)
    ensures x * half == (x / 2) * (2 * half) + (x % 2) * half
  {}

  /** Binding: two different openings of one root along one path exhibit two different
      pairs with the same hash. */
  lemma {:induction false} OpeningsCollide(h: Hash, path: seq<nat>, x: Field, xs: seq<Field>, y: Field, ys: seq<Field>)
      returns (p: (Field, Field), q: (Field, Field))
    requires |xs| == |ys| == |path| && (x, xs) != (y, ys)
    requires Fold(h, x, xs, path) == Fold(h, y, ys, path)
    ensures p != q && h(p.0, p.1) == h(q.0, q.1)
    decreases |path|
  {
    var d := |path| - 1;
    var a, b := Fold(h, x, xs[..d], path[..d]), Fold(h, y, ys[..d], path[..d]);
    p := if path[d] == 0 then (a, xs[d]) else (xs[d], a);
    q := if path[d] == 0 then (b, ys[d]) else (ys[d], b);
    if p == q {
      assert xs == xs[..d] + [xs[d]] && ys == ys[..d] + [ys[d]];
      p, q := OpeningsCollide(h, path[..d], x, xs[..d], y, ys[..d]);
    }
  }

  ghost predicate Injective(h: Hash) {
    forall a, b, c, d :: h(a, b) == h(c, d) ==> a == c && b == d
  }

  lemma NoCollision(h: Hash, a: Field, b: Field, c: Field, d: Field)
    requires Injective(h) && h(a, b) == h(c, d)
    ensures a == c && b == d
  {}

  /** Hence under an injective hash only the stored leaf folds to the root on its path. */
  lemma OnlyTheLeafFolds(tree: MerkleTree, index: nat, leaf: Field, siblings: seq<Field>)
    requires tree.Valid() && index < |tree.nodes[0]| && index < Pow2(tree.depth) && |siblings| == tree.depth
    requires Injective(tree.h)
    requires Fold(tree.h, leaf, siblings, Path(index, tree.depth)) == tree.Root()
    ensures leaf == tree.nodes[0][index]
    ensures siblings == Siblings(tree.h, tree.zero, tree.nodes[0], index, tree.depth)
  {
    hide Node, Siblings, Path, Fold, Shift, Pow2;
    var own := Siblings(tree.h, tree.zero, tree.nodes[0], index, tree.depth);
    ProofFoldsToRoot(tree, index);
    if (leaf, siblings) != (tree.nodes[0][index], own) {
      var p, q := OpeningsCollide(tree.h, Path(index, tree.depth), leaf, siblings, tree.nodes[0][index], own);
      NoCollision(tree.h, p.0, p.1, q.0, q.1);
      assert false;
    }
  }

  /** A node that is not above leaf `i` does not see a change of leaf `i`. */
  lemma {:induction false} NodeIgnores(h: Hash, z: Field, leaves: seq<Field>, i: nat, v: Field, l: nat, k: nat)
    requires i < |leaves| && Shift(i, l) != k
    ensures Node(h, z, leaves[i := v], l, k) == Node(h, z, leaves, l, k)
  {
    if l > 0 {
      NodeIgnores(h, z, leaves, i, v, l - 1, 2 * k);
      NodeIgnores(h, z, leaves, i, v, l - 1, 2 * k + 1);
    }
  }

  /** `l` is the highest bit in which `i` and `j` differ. */
  predicate TopDifference(i: nat, j: nat, l: nat) {
    Shift(i, l) != Shift(j, l) && Shift(i, l + 1) == Shift(j, l + 1)
  }

  /** Locality: after leaf `i` is removed, the proof of `j != i` keeps its path, and its
      sibling changes at no level but the one of the highest bit where `i` and `j` differ. */
  lemma RemoveMovesOneSibling(h: Hash, z: Field, leaves: seq<Field>, i: nat, j: nat, l: nat)
    requires i < |leaves| && i != j && !TopDifference(i, j, l)
    ensures Sibling(h, z, leaves[i := z], j, l) == Sibling(h, z, leaves, j, l)
  {
    PartnersShareParent(Shift(i, l), Shift(j, l));
    NodeIgnores(h, z, leaves, i, z, l, Partner(Shift(j, l)));
  }

  lemma PartnersShareParent(x: nat, y: nat)
    ensures x == Partner(y) <==> x != y && x / 2 == y / 2
  {}

  /** `Siblings` lists exactly these, level by level. */
  lemma {:induction false} SiblingAt(h: Hash, z: Field, leaves: seq<Field>, i: nat, d: nat, l: nat)
    requires l < d
    ensures Siblings(h, z, leaves, i, d)[l] == Sibling(h, z, leaves, i, l)
  {
    hide Sibling;
    if l < d - 1 { SiblingAt(h, z, leaves, i, d - 1, l); }
  }

  /** Two different indices of the same block differ at some highest bit below its height. */
  lemma {:induction false} TopDifferenceExists(i: nat, j: nat, d: nat) returns (l: nat)
    requires i != j && Shift(i, d) == Shift(j, d)
    ensures l < d && TopDifference(i, j, l)
    decreases d
  {
    if Shift(i, d - 1) == Shift(j, d - 1) {
      l := TopDifferenceExists(i, j, d - 1);
    } else {
      l := d - 1;
    }
  }

  /** On whole proofs: removing leaf `i` leaves the proof of another addressable leaf `j` as it
      was, except for one sibling, at the one level where the two paths part. */
  lemma RemoveKeepsOtherProofs(h: Hash, z: Field, leaves: seq<Field>, i: nat, j: nat, d: nat) returns (l: nat)
    requires i < |leaves| && i != j && i < Pow2(d) && j < Pow2(d)
    ensures l < d && TopDifference(i, j, l) && (forall m :: TopDifference(i, j, m) ==> m == l)
    ensures Siblings(h, z, leaves[i := z], j, d) == Siblings(h, z, leaves, j, d)[l := Sibling(h, z, leaves[i := z], j, l)]
  {
    hide Sibling, Siblings, TopDifference, Shift, Pow2;
    ShiftDrops(i, d);
    ShiftDrops(j, d);
    InRange(i, Shift(i, d), Pow2(d));
    InRange(j, Shift(j, d), Pow2(d));
    l := TopDifferenceExists(i, j, d);
    forall m: nat | TopDifference(i, j, m) ensures m == l {
      if l < m { TopDifferenceUnique(i, j, l, m); } else if m < l { TopDifferenceUnique(i, j, m, l); }
    }
    var before, after := Siblings(h, z, leaves, j, d), Siblings(h, z, leaves[i := z], j, d);
    forall m | 0 <= m < d ensures after[m] == if m == l then Sibling(h, z, leaves[i := z], j, l) else before[m] {
      SiblingAt(h, z, leaves, j, d, m);
      SiblingAt(h, z, leaves[i := z], j, d, m);
      if m != l { RemoveMovesOneSibling(h, z, leaves, i, j, m); }
    }
  }

  /** There is only one such level. */
  lemma {:induction false} TopDifferenceUnique(i: nat, j: nat, l: nat, m: nat)
    requires TopDifference(i, j, l) && l < m
    ensures Shift(i, m) == Shift(j, m) && !TopDifference(i, j, m)
    decreases m
  {
    if l + 1 < m { TopDifferenceUnique(i, j, l, m - 1); }
  }
}
