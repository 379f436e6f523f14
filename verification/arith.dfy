/**
  Powers of two and the facts the tree proofs rely on about the index of a
  leaf's ancestor at a given level: the leaf index halved once per level,
  as the insertion loop does with `curr`.
 */
module Arith {

  /** 2 raised to `n`: the number of leaves under a node of height `n`. */
  function Pow2(n: nat): (r: nat)
    ensures r >= 1
  {
    if n == 0 then 1 else 2 * Pow2(n - 1)
  }

  /** The position, among the nodes of height `level`, of the ancestor of
      leaf `n`: `n` halved (rounding down) `level` times. */
  function PathIndex(n: nat, level: nat): nat
  {
    if level == 0 then n else PathIndex(n, level - 1) / 2
  }

  lemma MulAtLeast(k: int, d: int)
    requires k >= 1 && d > 0
    ensures k * d >= d
  {
    assert k * d == (k - 1) * d + d;
    assert (k - 1) * d >= 0;
  }

  /** Halving first and then climbing `level` levels is climbing `level + 1` levels. */
  lemma {:induction false} PathIndexOfHalf(n: nat, level: nat)
    ensures PathIndex(n / 2, level) == PathIndex(n, level + 1)
    decreases level
  {
    if level > 0 {
      PathIndexOfHalf(n, level - 1);
    }
  }

  /** The next leaf's ancestor is the same node or the one just after it. */
  lemma {:induction false} PathIndexSucc(n: nat, level: nat)
    ensures PathIndex(n + 1, level) == PathIndex(n, level)
         || PathIndex(n + 1, level) == PathIndex(n, level) + 1
    decreases level
  {
    if level > 0 {
      PathIndexSucc(n, level - 1);
    }
  }

  /** The ancestor of leaf `n` covers leaf `n`: its first leaf is at or
      before `n`, and its successor's first leaf is after `n`. */
  lemma {:induction false} PathIndexBounds(n: nat, level: nat)
    ensures PathIndex(n, level) * Pow2(level) <= n < (PathIndex(n, level) + 1) * Pow2(level)
    decreases level
  {
    if level > 0 {
      PathIndexBounds(n, level - 1);
      HalveBounds(n, PathIndex(n, level - 1), Pow2(level - 1));
    }
  }

  /** If node `q` of width `w` covers `n`, so does node `q / 2` of width `2 * w`. */
  lemma HalveBounds(n: nat, q: nat, w: nat)
    requires q * w <= n < (q + 1) * w
    ensures (q / 2) * (2 * w) <= n < (q / 2 + 1) * (2 * w)
  {
    var a := q / 2;
    var b := q % 2;
    assert q == 2 * a + b;
    assert q * w == (2 * a) * w + b * w;
    assert (q + 1) * w == (2 * a) * w + (b + 1) * w;
    assert (a + 1) * (2 * w) == (2 * a) * w + 2 * w;
    assert a * (2 * w) == (2 * a) * w;
    assert b * w >= 0;
    assert (b + 1) * w <= 2 * w;
  }

  /** Leaf 0's ancestor is node 0 at every level. */
  lemma {:induction false} PathIndexOfZero(level: nat)
    ensures PathIndex(0, level) == 0
    decreases level
  {
    if level > 0 {
      PathIndexOfZero(level - 1);
    }
  }

  /** Below the top of a tree of height `levels`, every leaf has ancestor 0. */
  lemma PathIndexTop(n: nat, levels: nat)
    requires n < Pow2(levels)
    ensures PathIndex(n, levels) == 0
  {
    PathIndexBounds(n, levels);
    if PathIndex(n, levels) >= 1 {
      MulAtLeast(PathIndex(n, levels), Pow2(levels));
    }
  }

  /** The leaf just past the last slot of a tree of height `levels` has
      ancestor 2^(levels - level) at each level. */
  lemma {:induction false} PathIndexOfCapacity(levels: nat, level: nat)
    requires level <= levels
    ensures PathIndex(Pow2(levels), level) == Pow2(levels - level)
    decreases level
  {
    if level > 0 {
      PathIndexOfCapacity(levels, level - 1);
      assert Pow2(levels - (level - 1)) == 2 * Pow2(levels - level);
    }
  }
}
