/**
  Properties of `InsertLeaf`: what it writes and reads, that incremental
  insertion computes the zero-padded Merkle root, and how the seeded
  constructor relates to the unseeded one.
 */
module TreeInsertion {
  import opened Arith
  import opened MerkleSpec
  import opened Wrappers
  import opened IncrementalMerkleTree

  /** Level `j` is one the walk started at level `i` with position `curr`
      writes to: the position there is even. */
  predicate Written(i: nat, levels: nat, curr: nat, j: nat)
  {
    i <= j < levels && PathIndex(curr, j - i) % 2 == 0
  }

  /** Climbing past level `i` shifts the written levels by one halving. */
  lemma WrittenStep(i: nat, levels: nat, curr: nat, j: nat)
    requires i < levels && i + 1 <= j
    ensures Written(i + 1, levels, curr / 2, j) == Written(i, levels, curr, j)
  {
    PathIndexOfHalf(curr, j - (i + 1));
  }

  // ---------------------------------------------------------------------
  // What the walk writes and what it reads
  // ---------------------------------------------------------------------

  /** The walk leaves every slot it does not write untouched. */
  lemma {:induction false} InsertPathFrame(zeros: seq<Term>, levels: nat, i: nat, curr: nat, h: Term, filled: seq<Term>)
    requires i <= levels <= |zeros| && levels <= |filled|
    ensures forall j :: 0 <= j < |filled| && !Written(i, levels, curr, j) ==>
              InsertPath(zeros, levels, i, curr, h, filled).filled[j] == filled[j]
    decreases levels - i
  {
    if i < levels {
      var next := if curr % 2 == 0 then filled[i := h] else filled;
      var h' := if curr % 2 == 0 then Hash(h, zeros[i]) else Hash(filled[i], h);
      assert InsertPath(zeros, levels, i, curr, h, filled) == InsertPath(zeros, levels, i + 1, curr / 2, h', next);
      InsertPathFrame(zeros, levels, i + 1, curr / 2, h', next);
      forall j | 0 <= j < |filled| && !Written(i, levels, curr, j)
        ensures InsertPath(zeros, levels, i, curr, h, filled).filled[j] == filled[j]
      {
        if j > i {
          WrittenStep(i, levels, curr, j);
        }
      }
    }
  }

  /** The walk reads a sibling slot only where it does not write it: two
      sibling arrays that agree off the written levels give the same walk. */
  lemma {:induction false} InsertPathIgnoresWritten(zeros: seq<Term>, levels: nat, i: nat, curr: nat, h: Term,
                                                    f1: seq<Term>, f2: seq<Term>)
    requires i <= levels <= |zeros| && levels <= |f1| && |f1| == |f2|
    requires forall j :: 0 <= j < |f1| && !Written(i, levels, curr, j) ==> f1[j] == f2[j]
    ensures InsertPath(zeros, levels, i, curr, h, f1) == InsertPath(zeros, levels, i, curr, h, f2)
    decreases levels - i
  {
    if i == levels {
      assert f1 == f2;
    } else {
      forall j | i + 1 <= j < levels
        ensures Written(i + 1, levels, curr / 2, j) == Written(i, levels, curr, j)
      {
        WrittenStep(i, levels, curr, j);
      }
      if curr % 2 == 0 {
        InsertPathIgnoresWritten(zeros, levels, i + 1, curr / 2, Hash(h, zeros[i]), f1[i := h], f2[i := h]);
      } else {
        assert !Written(i, levels, curr, i);
        InsertPathIgnoresWritten(zeros, levels, i + 1, curr / 2, Hash(f1[i], h), f1, f2);
      }
    }
  }

  /** `InsertLeaf` bumps the leaf index by one, keeps the depth and the zero
      chain, and changes a sibling slot only at a level where the new leaf's
      ancestor sits at an even position. */
  lemma InsertLeafFrame(t: Tree, leaf: int)
    requires WellFormed(t)
    ensures var r := InsertLeaf(t, leaf);
      && r.treeLevels == t.treeLevels && r.zeros == t.zeros
      && r.nextLeafIndex == t.nextLeafIndex + 1
      && (forall j :: 0 <= j < |t.filledSubtrees| && !Written(0, t.treeLevels, t.nextLeafIndex, j) ==>
            r.filledSubtrees[j] == t.filledSubtrees[j])
  {
    InsertPathFrame(t.zeros, t.treeLevels, 0, t.nextLeafIndex, Num(leaf), t.filledSubtrees);
  }

  /** `InsertLeaf` reads a sibling slot only at a level where the new leaf's
      ancestor sits at an odd position: trees that differ elsewhere (in their
      old root, or in slots about to be overwritten) give the same result. */
  lemma InsertLeafReadsOnlyOddLevels(t1: Tree, t2: Tree, leaf: int)
    requires WellFormed(t1) && WellFormed(t2)
    requires t1.treeLevels == t2.treeLevels && t1.zeros == t2.zeros && t1.nextLeafIndex == t2.nextLeafIndex
    requires |t1.filledSubtrees| == |t2.filledSubtrees|
    requires forall j :: 0 <= j < |t1.filledSubtrees| && !Written(0, t1.treeLevels, t1.nextLeafIndex, j) ==>
               t1.filledSubtrees[j] == t2.filledSubtrees[j]
    ensures InsertLeaf(t1, leaf) == InsertLeaf(t2, leaf)
  {
    InsertPathIgnoresWritten(t1.zeros, t1.treeLevels, 0, t1.nextLeafIndex, Num(leaf),
                             t1.filledSubtrees, t2.filledSubtrees);
  }

  // ---------------------------------------------------------------------
  // Incremental insertion computes the padded Merkle root
  // ---------------------------------------------------------------------

  /** Every sibling slot the next walk will read holds the complete subtree
      just left of the next leaf's ancestor. */
  ghost predicate SiblingsHold(filled: seq<Term>, zeroValue: int, leaves: seq<int>, from: nat, to: nat)
    requires to <= |filled|
  {
    forall j :: from <= j < to && PathIndex(|leaves|, j) % 2 == 1 ==>
      filled[j] == Subtree(leaves, zeroValue, j, PathIndex(|leaves|, j) - 1)
  }

  /** The tree holds `leaves` inserted in order into an unseeded tree: a
      zero chain, correct left siblings, and the padded root. */
  ghost predicate Holds(t: Tree, zeroValue: int, leaves: seq<int>)
  {
    && t.treeLevels >= 1
    && |t.zeros| == t.treeLevels && |t.filledSubtrees| == t.treeLevels
    && (forall j :: 0 <= j < t.treeLevels ==> t.zeros[j] == Zero(zeroValue, j))
    && t.nextLeafIndex == |leaves| <= Pow2(t.treeLevels)
    && SiblingsHold(t.filledSubtrees, zeroValue, leaves, 0, t.treeLevels)
    && t.root == Subtree(leaves, zeroValue, t.treeLevels, 0)
  }

  /** What holds at the start of iteration `i` of the insertion loop: the
      carried hash is the subtree at level `i` containing the new leaf; the
      slots below `i` hold the siblings the next insertion needs, and those
      from `i` up still hold the ones this insertion needs. */
  ghost predicate WalkState(zeros: seq<Term>, levels: nat, i: nat, curr: nat, h: Term,
                            filled: seq<Term>, zeroValue: int, leaves: seq<int>, leaf: int)
  {
    && i <= levels <= |zeros| && levels <= |filled|
    && (forall j :: 0 <= j < levels ==> zeros[j] == Zero(zeroValue, j))
    && curr == PathIndex(|leaves|, i)
    && h == Subtree(leaves + [leaf], zeroValue, i, curr)
    && SiblingsHold(filled, zeroValue, leaves + [leaf], 0, i)
    && SiblingsHold(filled, zeroValue, leaves, i, levels)
  }

  /** An iteration at an even position keeps `WalkState`. */
  lemma InsertStepEven(zeros: seq<Term>, levels: nat, i: nat, curr: nat, h: Term,
                       filled: seq<Term>, zeroValue: int, leaves: seq<int>, leaf: int)
    requires WalkState(zeros, levels, i, curr, h, filled, zeroValue, leaves, leaf)
    requires i < levels && curr % 2 == 0
    ensures WalkState(zeros, levels, i + 1, curr / 2, Hash(h, zeros[i]), filled[i := h], zeroValue, leaves, leaf)
  {
    var n := |leaves|;
    var grown := leaves + [leaf];
    PathIndexBounds(n, i);
    PathIndexSucc(n, i);
    SubtreeBeyondLeaves(grown, zeroValue, i, curr + 1);
    assert Hash(h, zeros[i]) == Subtree(grown, zeroValue, i + 1, curr / 2);
    assert SiblingsHold(filled[i := h], zeroValue, grown, 0, i + 1);
  }

  /** At an odd position the remembered sibling is complete before the new
      leaf, so appending the leaf leaves it unchanged. */
  lemma OddSiblingComplete(filled: seq<Term>, zeroValue: int, leaves: seq<int>, leaf: int,
                           i: nat, levels: nat)
    requires i < levels <= |filled|
    requires SiblingsHold(filled, zeroValue, leaves, i, levels)
    requires PathIndex(|leaves|, i) % 2 == 1
    ensures filled[i] == Subtree(leaves + [leaf], zeroValue, i, PathIndex(|leaves|, i) - 1)
  {
    var curr := PathIndex(|leaves|, i);
    PathIndexBounds(|leaves|, i);
    assert (curr - 1 + 1) * Pow2(i) <= |leaves|;
    SubtreeAppend(leaves, leaf, zeroValue, i, curr - 1);
  }

  /** Once level `i` holds the sibling left of the new leaf's ancestor, the
      siblings of the grown row hold one level further. */
  lemma SiblingsExtend(filled: seq<Term>, zeroValue: int, leaves: seq<int>, leaf: int, i: nat)
    requires i < |filled|
    requires SiblingsHold(filled, zeroValue, leaves + [leaf], 0, i)
    requires PathIndex(|leaves|, i) % 2 == 1
    requires filled[i] == Subtree(leaves + [leaf], zeroValue, i, PathIndex(|leaves|, i) - 1)
    ensures SiblingsHold(filled, zeroValue, leaves + [leaf], 0, i + 1)
  {
    PathIndexSucc(|leaves|, i);
    assert |leaves + [leaf]| == |leaves| + 1;
  }

  /** An iteration at an odd position keeps `WalkState`. */
  lemma InsertStepOdd(zeros: seq<Term>, levels: nat, i: nat, curr: nat, h: Term,
                      filled: seq<Term>, zeroValue: int, leaves: seq<int>, leaf: int)
    requires WalkState(zeros, levels, i, curr, h, filled, zeroValue, leaves, leaf)
    requires i < levels && curr % 2 == 1
    ensures WalkState(zeros, levels, i + 1, curr / 2, Hash(filled[i], h), filled, zeroValue, leaves, leaf)
  {
    var grown := leaves + [leaf];
    OddSiblingComplete(filled, zeroValue, leaves, leaf, i, levels);
    SiblingsExtend(filled, zeroValue, leaves, leaf, i);
    assert 2 * (curr / 2) == curr - 1;
    assert Hash(filled[i], h) == Subtree(grown, zeroValue, i + 1, curr / 2);
  }

  /** The insertion loop from level `i` up ends with the root of the tree
      holding the new leaf and every sibling the next insertion will read. */
  lemma {:induction false} InsertPathCorrect(zeros: seq<Term>, levels: nat, i: nat, curr: nat, h: Term,
                                             filled: seq<Term>, zeroValue: int, leaves: seq<int>, leaf: int)
    requires WalkState(zeros, levels, i, curr, h, filled, zeroValue, leaves, leaf)
    ensures var w := InsertPath(zeros, levels, i, curr, h, filled);
      && w.top == Subtree(leaves + [leaf], zeroValue, levels, PathIndex(|leaves|, levels))
      && SiblingsHold(w.filled, zeroValue, leaves + [leaf], 0, levels)
    decreases levels - i
  {
    if i < levels {
      if curr % 2 == 0 {
        InsertStepEven(zeros, levels, i, curr, h, filled, zeroValue, leaves, leaf);
        InsertPathCorrect(zeros, levels, i + 1, curr / 2, Hash(h, zeros[i]), filled[i := h], zeroValue, leaves, leaf);
      } else {
        InsertStepOdd(zeros, levels, i, curr, h, filled, zeroValue, leaves, leaf);
        InsertPathCorrect(zeros, levels, i + 1, curr / 2, Hash(filled[i], h), filled, zeroValue, leaves, leaf);
      }
    }
  }

  /** Below capacity, `InsertLeaf` keeps the tree holding its leaves, now
      with `leaf` appended. */
  lemma InsertLeafHolds(t: Tree, zeroValue: int, leaves: seq<int>, leaf: int)
    requires Holds(t, zeroValue, leaves) && |leaves| < Pow2(t.treeLevels)
    ensures Holds(InsertLeaf(t, leaf), zeroValue, leaves + [leaf])
  {
    var n := |leaves|;
    PathIndexTop(n, t.treeLevels);
    assert WalkState(t.zeros, t.treeLevels, 0, n, Num(leaf), t.filledSubtrees, zeroValue, leaves, leaf);
    InsertPathCorrect(t.zeros, t.treeLevels, 0, n, Num(leaf), t.filledSubtrees, zeroValue, leaves, leaf);
  }

  lemma {:induction false} InsertAllHolds(t: Tree, zeroValue: int, done: seq<int>, rest: seq<int>)
    requires Holds(t, zeroValue, done) && |done| + |rest| <= Pow2(t.treeLevels)
    ensures Holds(InsertAll(t, rest), zeroValue, done + rest)
    decreases |rest|
  {
    if |rest| == 0 {
      assert done + rest == done;
    } else {
      InsertLeafHolds(t, zeroValue, done, rest[0]);
      assert (done + [rest[0]]) + rest[1..] == done + rest;
      InsertAllHolds(InsertLeaf(t, rest[0]), zeroValue, done + [rest[0]], rest[1..]);
    }
  }

  /** A fresh unseeded tree holds no leaves. */
  lemma EmptyTreeHolds(levels: nat, zeroValue: int)
    requires levels >= 1
    ensures Holds(NewTree(levels, zeroValue, None), zeroValue, [])
  {
    ConstructorZeroChain(levels, zeroValue, None);
    UnseededConstructor(levels, zeroValue, None);
    SubtreeBeyondLeaves([], zeroValue, levels, 0);
    forall j | 0 <= j < levels
      ensures PathIndex(0, j) == 0
    {
      PathIndexOfZero(j);
    }
  }

  /** After k <= 2^levels inserts into an unseeded tree, the root is the
      Merkle root of those k leaves padded with the zero value to 2^levels
      leaves. */
  lemma IncrementalEqualsPadded(levels: nat, zeroValue: int, leaves: seq<int>)
    requires levels >= 1 && |leaves| <= Pow2(levels)
    ensures InsertAll(NewTree(levels, zeroValue, None), leaves).root
         == MerkleRoot(Padded(leaves, zeroValue, levels), levels)
  {
    EmptyTreeHolds(levels, zeroValue);
    InsertAllHolds(NewTree(levels, zeroValue, None), zeroValue, [], leaves);
    assert [] + leaves == leaves;
    PaddedRootIsSubtree(leaves, zeroValue, levels);
  }

  /** The empty-string placeholder in sibling slot 0 never reaches a root
      reachable from the unseeded constructor. */
  lemma PlaceholderNeverInRoot(levels: nat, zeroValue: int, leaves: seq<int>)
    requires levels >= 1 && |leaves| <= Pow2(levels)
    ensures NoBlank(InsertAll(NewTree(levels, zeroValue, None), leaves).root)
  {
    EmptyTreeHolds(levels, zeroValue);
    InsertAllHolds(NewTree(levels, zeroValue, None), zeroValue, [], leaves);
    assert [] + leaves == leaves;
    SubtreeHasNoBlank(leaves, zeroValue, levels, 0);
  }

  // ---------------------------------------------------------------------
  // Walks along an all-even path, and the seeded constructor
  // ---------------------------------------------------------------------

  /** A walk whose position is even at every level it climbs writes every
      slot it passes with the left spine of the tree holding only `leaf`. */
  lemma {:induction false} InsertPathLeftSpine(zeros: seq<Term>, levels: nat, i: nat, curr: nat, h: Term,
                                               filled: seq<Term>, zeroValue: int, leaf: int)
    requires i <= levels <= |zeros| && levels <= |filled|
    requires forall j :: 0 <= j < levels ==> zeros[j] == Zero(zeroValue, j)
    requires forall k :: 0 <= k < levels - i ==> PathIndex(curr, k) % 2 == 0
    requires h == Subtree([leaf], zeroValue, i, 0)
    ensures var w := InsertPath(zeros, levels, i, curr, h, filled);
      && w.top == Subtree([leaf], zeroValue, levels, 0)
      && (forall j :: i <= j < levels ==> w.filled[j] == Subtree([leaf], zeroValue, j, 0))
    decreases levels - i
  {
    if i < levels {
      assert curr % 2 == 0 by {
        assert PathIndex(curr, 0) % 2 == 0;
      }
      forall k | 0 <= k < levels - (i + 1)
        ensures PathIndex(curr / 2, k) % 2 == 0
      {
        PathIndexOfHalf(curr, k);
      }
      var h', next := Hash(h, zeros[i]), filled[i := h];
      assert h' == Subtree([leaf], zeroValue, i + 1, 0) by {
        SeedSpineStep(leaf, zeroValue, i + 1);
      }
      var w := InsertPath(zeros, levels, i + 1, curr / 2, h', next);
      assert InsertPath(zeros, levels, i, curr, h, filled) == w;
      InsertPathFrame(zeros, levels, i + 1, curr / 2, h', next);
      assert w.filled[i] == h;
      InsertPathLeftSpine(zeros, levels, i + 1, curr / 2, h', next, zeroValue, leaf);
    }
  }

  /** The seeded constructor builds exactly the unseeded tree after
      inserting the seed, except that its leaf index is still 0. */
  lemma SeededIsUnseededPlusInsert(levels: nat, zeroValue: int, seed: int)
    requires levels >= 1 && seed != 0
    ensures NewTree(levels, zeroValue, Some(seed))
         == InsertLeaf(NewTree(levels, zeroValue, None), seed).(nextLeafIndex := 0)
  {
    var a := NewTree(levels, zeroValue, Some(seed));
    var u := NewTree(levels, zeroValue, None);
    var b := InsertLeaf(u, seed);
    ConstructorZeroChain(levels, zeroValue, None);
    ConstructorZeroChain(levels, zeroValue, Some(seed));
    SeededConstructor(levels, zeroValue, seed);
    PaddedRootIsSubtree([seed], zeroValue, levels);
    forall k | 0 <= k < levels
      ensures PathIndex(0, k) % 2 == 0
    {
      PathIndexOfZero(k);
    }
    InsertPathLeftSpine(u.zeros, levels, 0, 0, Num(seed), u.filledSubtrees, zeroValue, seed);
    assert a.zeros == b.zeros;
    assert a.filledSubtrees == b.filledSubtrees;
  }

  /** Because the seeded tree's leaf index is still 0, its first insertion
      overwrites the seed: the result is the same as inserting into an
      unseeded tree. */
  lemma FirstInsertOverwritesSeed(levels: nat, zeroValue: int, zerothLeaf: Option<int>, leaf: int)
    requires levels >= 1
    ensures InsertLeaf(NewTree(levels, zeroValue, zerothLeaf), leaf)
         == InsertLeaf(NewTree(levels, zeroValue, None), leaf)
  {
    var a := NewTree(levels, zeroValue, zerothLeaf);
    var u := NewTree(levels, zeroValue, None);
    ConstructorZeroChain(levels, zeroValue, None);
    ConstructorZeroChain(levels, zeroValue, zerothLeaf);
    assert a.zeros == u.zeros;
    forall j | 0 <= j < levels
      ensures Written(0, levels, 0, j)
    {
      PathIndexOfZero(j);
    }
    InsertLeafReadsOnlyOddLevels(a, u, leaf);
  }

  /** Any non-empty run of inserts gives the same tree with or without a
      seed, so the roots agree with the padded Merkle root of the inserted
      leaves alone. */
  lemma SeededInsertAll(levels: nat, zeroValue: int, zerothLeaf: Option<int>, leaves: seq<int>)
    requires levels >= 1 && 1 <= |leaves| <= Pow2(levels)
    ensures InsertAll(NewTree(levels, zeroValue, zerothLeaf), leaves)
         == InsertAll(NewTree(levels, zeroValue, None), leaves)
    ensures InsertAll(NewTree(levels, zeroValue, zerothLeaf), leaves).root
         == MerkleRoot(Padded(leaves, zeroValue, levels), levels)
  {
    FirstInsertOverwritesSeed(levels, zeroValue, zerothLeaf, leaves[0]);
    IncrementalEqualsPadded(levels, zeroValue, leaves);
  }

  /** With no capacity check, the insert after the tree is full walks the
      all-even path of index 0: the new root is that of a tree holding only
      the new leaf, and every earlier leaf is lost from it. */
  lemma InsertPastCapacity(levels: nat, zeroValue: int, leaves: seq<int>, leaf: int)
    requires levels >= 1 && |leaves| == Pow2(levels)
    ensures var t := InsertLeaf(InsertAll(NewTree(levels, zeroValue, None), leaves), leaf);
      && t.nextLeafIndex == Pow2(levels) + 1
      && t.root == MerkleRoot(Padded([leaf], zeroValue, levels), levels)
  {
    var full := InsertAll(NewTree(levels, zeroValue, None), leaves);
    EmptyTreeHolds(levels, zeroValue);
    InsertAllHolds(NewTree(levels, zeroValue, None), zeroValue, [], leaves);
    forall k | 0 <= k < levels
      ensures PathIndex(Pow2(levels), k) % 2 == 0
    {
      PathIndexOfCapacity(levels, k);
    }
    InsertPathLeftSpine(full.zeros, levels, 0, Pow2(levels), Num(leaf), full.filledSubtrees, zeroValue, leaf);
    PaddedRootIsSubtree([leaf], zeroValue, levels);
  }

  /** The two tests' trees: depth 4, zero value 0, leaf 123. The tree built
      with the zeroth leaf has the same zeros, siblings and root as the tree
      built without it after one insert, and that root has 123 at leaf 0
      and zeros in the other fifteen slots. */
  lemma ZerothLeafTests()
    ensures NewTree(4, 0, Some(123)) == InsertLeaf(NewTree(4, 0, None), 123).(nextLeafIndex := 0)
    ensures NewTree(4, 0, Some(123)).root == MerkleRoot(Padded([123], 0, 4), 4)
  {
    SeededIsUnseededPlusInsert(4, 0, 123);
    SeededConstructor(4, 0, 123);
  }
}
