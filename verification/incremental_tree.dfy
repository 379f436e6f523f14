/**
  The binary incremental Merkle tree used by the zeroth-leaf tests: a zero
  chain per level, the remembered left sibling per level, an O(levels)
  insertion, and an optional leaf seeded at index 0 by the constructor.

  The tree is an immutable record; the constructor and `InsertLeaf` return
  a new record. Each loop of the source is a recursive function over the
  level counter `i`.
 */
module IncrementalMerkleTree {
  import opened Arith
  import opened MerkleSpec
  import opened Wrappers

  /** The tree's fields: its depth, current root, zero chain, remembered
      left siblings and the index the next leaf goes to. */
  datatype Tree = Tree(
    treeLevels: nat,
    root: Term,
    zeros: seq<Term>,
    filledSubtrees: seq<Term>,
    nextLeafIndex: nat)

  /** Every level the insertion walks has a zero and a sibling slot. */
  predicate WellFormed(t: Tree)
  {
    |t.zeros| >= t.treeLevels && |t.filledSubtrees| >= t.treeLevels
  }

  /** The state carried by the constructor's loops: the two arrays built so
      far and the running hash (`currentZero` without a seed, `r` with one). */
  datatype Levels = Levels(zeros: seq<Term>, filled: seq<Term>, carry: Term)

  /** Number of entries the constructor pushes: one before its loop, then
      one per level from 1 to `levels - 1`. */
  function ArrayLength(levels: nat): nat
  {
    if levels == 0 then 1 else levels
  }

  /** The constructor's test of its optional argument: JavaScript
      truthiness, so a missing seed and a seed of 0 both select the
      unseeded branch. */
  predicate IsSeeded(zerothLeaf: Option<int>)
    ensures !IsSeeded(zerothLeaf) <==> zerothLeaf == None || zerothLeaf == Some(0)
  {
    zerothLeaf.Some? && zerothLeaf.value != 0
  }

  /** Unseeded loop: one hash per level, pushed to both arrays. */
  function UnseededLevels(levels: nat, i: nat, acc: Levels): (r: Levels)
    requires 1 <= i && |acc.zeros| == i && |acc.filled| == i
    ensures |r.zeros| == |r.filled| == (if levels <= i then i else levels)
    ensures r.zeros[..i] == acc.zeros && r.filled[..i] == acc.filled
    decreases levels - i
  {
    if i >= levels then acc
    else
      var hashed := Hash(acc.carry, acc.carry);
      UnseededLevels(levels, i + 1, Levels(acc.zeros + [hashed], acc.filled + [hashed], hashed))
  }

  /** Seeded loop: two hashes per level (the next zero and the next spine
      node), plus the all-zero right spine carried in `r`. */
  function SeededLevels(levels: nat, i: nat, acc: Levels): (r: Levels)
    requires 1 <= i && |acc.zeros| == i && |acc.filled| == i
    ensures |r.zeros| == |r.filled| == (if levels <= i then i else levels)
    ensures r.zeros[..i] == acc.zeros && r.filled[..i] == acc.filled
    decreases levels - i
  {
    if i >= levels then acc
    else
      SeededLevels(levels, i + 1, Levels(
        acc.zeros + [Hash(acc.zeros[i - 1], acc.zeros[i - 1])],
        acc.filled + [Hash(acc.filled[i - 1], acc.zeros[i - 1])],
        Hash(acc.carry, acc.carry)))
  }

  /** The constructor, both branches. */
  function NewTree(levels: nat, zeroValue: int, zerothLeaf: Option<int>): (t: Tree)
    ensures WellFormed(t)
    ensures t.treeLevels == levels && t.nextLeafIndex == 0
    ensures |t.zeros| == |t.filledSubtrees| == ArrayLength(levels)
  {
    if IsSeeded(zerothLeaf) then
      var acc := SeededLevels(levels, 1, Levels([Num(zeroValue)], [Num(zerothLeaf.value)], Num(zeroValue)));
      Tree(levels, Hash(acc.filled[|acc.filled| - 1], acc.carry), acc.zeros, acc.filled, 0)
    else
      var acc := UnseededLevels(levels, 1, Levels([Num(zeroValue)], [Blank], Num(zeroValue)));
      Tree(levels, Hash(acc.carry, acc.carry), acc.zeros, acc.filled, 0)
  }

  /** Result of the insertion walk: the hash reaching the top and the
      updated sibling array. */
  datatype Walk = Walk(top: Term, filled: seq<Term>)

  /** The insertion loop from level `i` up: `curr` is the position of the
      current node at level `i` and `h` its hash. An even position becomes
      the remembered left sibling and is paired with the zero of its level;
      an odd one is paired with the remembered left sibling. */
  function InsertPath(zeros: seq<Term>, levels: nat, i: nat, curr: nat, h: Term, filled: seq<Term>): (w: Walk)
    requires i <= levels <= |zeros| && levels <= |filled|
    ensures |w.filled| == |filled|
    decreases levels - i
  {
    if i == levels then Walk(h, filled)
    else if curr % 2 == 0 then
      InsertPath(zeros, levels, i + 1, curr / 2, Hash(h, zeros[i]), filled[i := h])
    else
      InsertPath(zeros, levels, i + 1, curr / 2, Hash(filled[i], h), filled)
  }

  /** Inserts `leaf` at `nextLeafIndex`. There is no capacity check. */
  function InsertLeaf(t: Tree, leaf: int): (r: Tree)
    requires WellFormed(t)
    ensures WellFormed(r) && |r.filledSubtrees| == |t.filledSubtrees|
  {
    var w := InsertPath(t.zeros, t.treeLevels, 0, t.nextLeafIndex, Num(leaf), t.filledSubtrees);
    Tree(t.treeLevels, w.top, t.zeros, w.filled, t.nextLeafIndex + 1)
  }

  /** Inserts `leaves` one after the other, first to last. */
  function InsertAll(t: Tree, leaves: seq<int>): (r: Tree)
    requires WellFormed(t)
    ensures WellFormed(r)
    ensures r.nextLeafIndex == t.nextLeafIndex + |leaves|
    ensures r.treeLevels == t.treeLevels && r.zeros == t.zeros
    decreases |leaves|
  {
    if |leaves| == 0 then t else InsertAll(InsertLeaf(t, leaves[0]), leaves[1..])
  }

  // ---------------------------------------------------------------------
  // The constructor
  // ---------------------------------------------------------------------

  /** What the unseeded loop keeps: the zero chain, the placeholder at 0,
      the zero chain again in the sibling slots, and the last zero. */
  ghost predicate UnseededInv(zeroValue: int, acc: Levels, n: nat)
  {
    && 1 <= n && |acc.zeros| == n && |acc.filled| == n
    && (forall j :: 0 <= j < n ==> acc.zeros[j] == Zero(zeroValue, j))
    && acc.filled[0] == Blank
    && (forall j :: 1 <= j < n ==> acc.filled[j] == Zero(zeroValue, j))
    && acc.carry == Zero(zeroValue, n - 1)
  }

  lemma {:induction false} UnseededLevelsKeep(levels: nat, i: nat, acc: Levels, zeroValue: int)
    requires UnseededInv(zeroValue, acc, i)
    ensures UnseededInv(zeroValue, UnseededLevels(levels, i, acc), if levels <= i then i else levels)
    decreases levels - i
  {
    if i < levels {
      var hashed := Hash(acc.carry, acc.carry);
      UnseededLevelsKeep(levels, i + 1, Levels(acc.zeros + [hashed], acc.filled + [hashed], hashed), zeroValue);
    }
  }

  /** What the seeded loop keeps: the zero chain, the left spine of the tree
      holding only the seed, and the last zero. */
  ghost predicate SeededInv(zeroValue: int, seed: int, acc: Levels, n: nat)
  {
    && 1 <= n && |acc.zeros| == n && |acc.filled| == n
    && (forall j :: 0 <= j < n ==> acc.zeros[j] == Zero(zeroValue, j))
    && (forall j :: 0 <= j < n ==> acc.filled[j] == Subtree([seed], zeroValue, j, 0))
    && acc.carry == Zero(zeroValue, n - 1)
  }

  /** One level up the spine of the tree holding only `seed`: the spine
      node's right sibling is all zero. */
  lemma SeedSpineStep(seed: int, zeroValue: int, height: nat)
    requires height >= 1
    ensures Subtree([seed], zeroValue, height, 0)
         == Hash(Subtree([seed], zeroValue, height - 1, 0), Zero(zeroValue, height - 1))
  {
    SubtreeBeyondLeaves([seed], zeroValue, height - 1, 1);
  }

  lemma {:induction false} SeededLevelsKeep(levels: nat, i: nat, acc: Levels, zeroValue: int, seed: int)
    requires SeededInv(zeroValue, seed, acc, i)
    ensures SeededInv(zeroValue, seed, SeededLevels(levels, i, acc), if levels <= i then i else levels)
    decreases levels - i
  {
    if i < levels {
      var next := Levels(
        acc.zeros + [Hash(acc.zeros[i - 1], acc.zeros[i - 1])],
        acc.filled + [Hash(acc.filled[i - 1], acc.zeros[i - 1])],
        Hash(acc.carry, acc.carry));
      SeedSpineStep(seed, zeroValue, i);
      assert next.zeros[i] == Zero(zeroValue, i);
      assert next.filled[i] == Subtree([seed], zeroValue, i, 0);
      assert SeededInv(zeroValue, seed, next, i + 1);
      SeededLevelsKeep(levels, i + 1, next, zeroValue, seed);
    }
  }

  /** In both branches the constructor builds the zero chain: entry 0 is
      the zero value and each further entry hashes the previous one with
      itself, i.e. entry i is the root of an all-zero subtree of height i. */
  lemma ConstructorZeroChain(levels: nat, zeroValue: int, zerothLeaf: Option<int>)
    ensures var t := NewTree(levels, zeroValue, zerothLeaf);
      && |t.zeros| == ArrayLength(levels)
      && t.zeros[0] == Num(zeroValue)
      && (forall i :: 1 <= i < |t.zeros| ==> t.zeros[i] == Hash(t.zeros[i - 1], t.zeros[i - 1]))
      && (forall i :: 0 <= i < |t.zeros| ==> t.zeros[i] == Zero(zeroValue, i))
  {
    var t := NewTree(levels, zeroValue, zerothLeaf);
    if IsSeeded(zerothLeaf) {
      SeededLevelsKeep(levels, 1, Levels([Num(zeroValue)], [Num(zerothLeaf.value)], Num(zeroValue)), zeroValue, zerothLeaf.value);
    } else {
      UnseededLevelsKeep(levels, 1, Levels([Num(zeroValue)], [Blank], Num(zeroValue)), zeroValue);
    }
    assert forall i :: 0 <= i < |t.zeros| ==> t.zeros[i] == Zero(zeroValue, i);
  }

  /** Without a seed: the root is the hash of the top zero with itself, the
      root of the all-zero tree of 2^levels leaves; every sibling slot above
      level 0 holds that level's zero and slot 0 holds the placeholder. */
  lemma UnseededConstructor(levels: nat, zeroValue: int, zerothLeaf: Option<int>)
    requires levels >= 1 && !IsSeeded(zerothLeaf)
    ensures var t := NewTree(levels, zeroValue, zerothLeaf);
      && t.root == Hash(t.zeros[levels - 1], t.zeros[levels - 1])
      && t.root == MerkleRoot(Padded([], zeroValue, levels), levels)
      && t.filledSubtrees[0] == Blank
      && (forall i :: 1 <= i < levels ==> t.filledSubtrees[i] == t.zeros[i])
  {
    UnseededLevelsKeep(levels, 1, Levels([Num(zeroValue)], [Blank], Num(zeroValue)), zeroValue);
    ZeroIsEmptyRoot(zeroValue, levels);
  }

  /** With a seed: slot 0 holds the seed, each higher slot hashes the slot
      below with that level's zero, and the root is the root of the
      2^levels-leaf tree whose only non-zero leaf is the seed at index 0. */
  lemma SeededConstructor(levels: nat, zeroValue: int, seed: int)
    requires levels >= 1 && seed != 0
    ensures var t := NewTree(levels, zeroValue, Some(seed));
      && t.filledSubtrees[0] == Num(seed)
      && (forall i :: 1 <= i < levels ==>
            t.filledSubtrees[i] == Hash(t.filledSubtrees[i - 1], t.zeros[i - 1]))
      && t.root == Hash(t.filledSubtrees[levels - 1], t.zeros[levels - 1])
      && (forall i :: 0 <= i < levels ==> t.filledSubtrees[i] == Subtree([seed], zeroValue, i, 0))
      && t.root == MerkleRoot(Padded([seed], zeroValue, levels), levels)
  {
    var t := NewTree(levels, zeroValue, Some(seed));
    SeededLevelsKeep(levels, 1, Levels([Num(zeroValue)], [Num(seed)], Num(zeroValue)), zeroValue, seed);
    forall i | 1 <= i < levels
      ensures t.filledSubtrees[i] == Hash(t.filledSubtrees[i - 1], t.zeros[i - 1])
    {
      SeedSpineStep(seed, zeroValue, i);
    }
    SeedSpineStep(seed, zeroValue, levels);
    PaddedRootIsSubtree([seed], zeroValue, levels);
  }

  /** The truthiness test: a seed of 0 builds the same tree as no seed. */
  lemma ZeroSeedIsNoSeed(levels: nat, zeroValue: int)
    ensures NewTree(levels, zeroValue, Some(0)) == NewTree(levels, zeroValue, None)
    ensures NewTree(levels, zeroValue, Some(0)).filledSubtrees[0] == Blank
  {
  }

  /** Depth 0 is where the constructor and the insertion disagree: the
      constructor still hashes once above level 0, while the insertion walks
      no level. So a seeded tree of depth 0 is not the unseeded tree plus
      one insert, which is why the equivalence is stated for depth >= 1. */
  lemma DepthZeroMismatch(zeroValue: int, seed: int)
    requires seed != 0
    ensures NewTree(0, zeroValue, None).root == Hash(Num(zeroValue), Num(zeroValue))
    ensures NewTree(0, zeroValue, Some(seed)).root == Hash(Num(seed), Num(zeroValue))
    ensures InsertLeaf(NewTree(0, zeroValue, None), seed).root == Num(seed)
  {
  }
}
