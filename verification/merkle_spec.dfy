/**
  Hash terms and the reference (non-incremental) binary Merkle root.

  The tree under study hashes with a symbolic string constructor that wraps
  its two arguments in parentheses, so two hashes are equal exactly when
  their arguments are. A free datatype constructor has the same equality,
  which makes the root of a tree a term whose shape is the tree itself.
 */
module MerkleSpec {
  import opened Arith

  /** A value stored in the tree: a numeric leaf, the empty-string
      placeholder, or the hash of a left and a right value. */
  datatype Term = Num(n: int) | Blank | Node(left: Term, right: Term)

  /** The two-to-one hash of the tree: a free pairing of its arguments. */
  function Hash(left: Term, right: Term): (t: Term)
    ensures !t.Num? && t != Blank
    ensures t != left && t != right
  {
    var t := Node(left, right);
    assert left < t && right < t;
    t
  }

  /** Equal hashes have equal arguments, in order. */
  lemma HashInjective(a: Term, b: Term, c: Term, d: Term)
    ensures Hash(a, b) == Hash(c, d) <==> a == c && b == d
  {
  }

  /** The root of an all-zero subtree of the given height. */
  function Zero(zeroValue: int, height: nat): Term
  {
    if height == 0 then Num(zeroValue) else Hash(Zero(zeroValue, height - 1), Zero(zeroValue, height - 1))
  }

  /** Leaf `j` of the row `leaves` padded with `zeroValue` without end. */
  function LeafAt(leaves: seq<int>, zeroValue: int, j: nat): Term
  {
    if j < |leaves| then Num(leaves[j]) else Num(zeroValue)
  }

  /** The root of the subtree of height `height` at position `pos` over the
      zero-padded leaf row: it covers leaves pos * 2^height up to
      (pos + 1) * 2^height - 1. */
  function Subtree(leaves: seq<int>, zeroValue: int, height: nat, pos: nat): Term
    decreases height
  {
    if height == 0 then LeafAt(leaves, zeroValue, pos)
    else Hash(Subtree(leaves, zeroValue, height - 1, 2 * pos),
              Subtree(leaves, zeroValue, height - 1, 2 * pos + 1))
  }

  /** The textbook Merkle root of a row of 2^height nodes: hash the roots of
      its two halves. */
  function MerkleRoot(row: seq<Term>, height: nat): Term
    requires |row| == Pow2(height)
    decreases height
  {
    if height == 0 then row[0]
    else
      var half := Pow2(height - 1);
      Hash(MerkleRoot(row[..half], height - 1), MerkleRoot(row[half..], height - 1))
  }

  /** `leaves` followed by copies of `zeroValue` up to 2^height leaves. */
  function Padded(leaves: seq<int>, zeroValue: int, height: nat): (row: seq<Term>)
    requires |leaves| <= Pow2(height)
    ensures |row| == Pow2(height)
    ensures forall j :: 0 <= j < |leaves| ==> row[j] == Num(leaves[j])
    ensures forall j :: |leaves| <= j < |row| ==> row[j] == Num(zeroValue)
  {
    Window(leaves, zeroValue, 0, Pow2(height))
  }

  /** The `len` padded leaves starting at leaf `start`. */
  function Window(leaves: seq<int>, zeroValue: int, start: nat, len: nat): (row: seq<Term>)
    ensures |row| == len
    ensures forall j :: 0 <= j < len ==> row[j] == LeafAt(leaves, zeroValue, start + j)
  {
    seq(len, j requires 0 <= j < len => LeafAt(leaves, zeroValue, start + j))
  }

  /** The positional subtree root is the Merkle root of the leaves it covers. */
  lemma {:induction false} SubtreeIsMerkleRoot(leaves: seq<int>, zeroValue: int, height: nat, pos: nat)
    ensures Subtree(leaves, zeroValue, height, pos)
         == MerkleRoot(Window(leaves, zeroValue, pos * Pow2(height), Pow2(height)), height)
    decreases height
  {
    if height > 0 {
      var half := Pow2(height - 1);
      var w := Window(leaves, zeroValue, pos * Pow2(height), Pow2(height));
      assert pos * Pow2(height) == (2 * pos) * half;
      assert (2 * pos + 1) * half == pos * Pow2(height) + half;
      assert w[..half] == Window(leaves, zeroValue, (2 * pos) * half, half);
      assert w[half..] == Window(leaves, zeroValue, (2 * pos + 1) * half, half);
      SubtreeIsMerkleRoot(leaves, zeroValue, height - 1, 2 * pos);
      SubtreeIsMerkleRoot(leaves, zeroValue, height - 1, 2 * pos + 1);
    }
  }

  /** The whole padded tree: its root is the subtree of full height at position 0. */
  lemma PaddedRootIsSubtree(leaves: seq<int>, zeroValue: int, height: nat)
    requires |leaves| <= Pow2(height)
    ensures MerkleRoot(Padded(leaves, zeroValue, height), height) == Subtree(leaves, zeroValue, height, 0)
  {
    SubtreeIsMerkleRoot(leaves, zeroValue, height, 0);
  }

  /** A subtree lying wholly past the last leaf is the zero subtree. */
  lemma {:induction false} SubtreeBeyondLeaves(leaves: seq<int>, zeroValue: int, height: nat, pos: nat)
    requires pos * Pow2(height) >= |leaves|
    ensures Subtree(leaves, zeroValue, height, pos) == Zero(zeroValue, height)
    decreases height
  {
    if height > 0 {
      var half := Pow2(height - 1);
      assert (2 * pos) * half == pos * Pow2(height);
      assert (2 * pos + 1) * half >= (2 * pos) * half;
      SubtreeBeyondLeaves(leaves, zeroValue, height - 1, 2 * pos);
      SubtreeBeyondLeaves(leaves, zeroValue, height - 1, 2 * pos + 1);
    }
  }

  /** Appending a leaf does not change a subtree that lies wholly before it. */
  lemma {:induction false} SubtreeAppend(leaves: seq<int>, x: int, zeroValue: int, height: nat, pos: nat)
    requires (pos + 1) * Pow2(height) <= |leaves|
    ensures Subtree(leaves + [x], zeroValue, height, pos) == Subtree(leaves, zeroValue, height, pos)
    decreases height
  {
    if height > 0 {
      var half := Pow2(height - 1);
      assert (2 * pos + 2) * half == (pos + 1) * Pow2(height);
      assert (2 * pos + 1) * half <= (2 * pos + 2) * half;
      SubtreeAppend(leaves, x, zeroValue, height - 1, 2 * pos);
      SubtreeAppend(leaves, x, zeroValue, height - 1, 2 * pos + 1);
    }
  }

  /** The all-zero padded row hashes to the zero chain. */
  lemma ZeroIsEmptyRoot(zeroValue: int, height: nat)
    ensures Zero(zeroValue, height) == MerkleRoot(Padded([], zeroValue, height), height)
  {
    SubtreeBeyondLeaves([], zeroValue, height, 0);
    PaddedRootIsSubtree([], zeroValue, height);
  }

  /** A term built from numeric leaves only, with no empty placeholder inside. */
  predicate NoBlank(t: Term)
  {
    match t
    case Num(_) => true
    case Blank => false
    case Node(l, r) => NoBlank(l) && NoBlank(r)
  }

  /** Every subtree of the padded row is made of numeric leaves only. */
  lemma {:induction false} SubtreeHasNoBlank(leaves: seq<int>, zeroValue: int, height: nat, pos: nat)
    ensures NoBlank(Subtree(leaves, zeroValue, height, pos))
    decreases height
  {
    if height > 0 {
      SubtreeHasNoBlank(leaves, zeroValue, height - 1, 2 * pos);
      SubtreeHasNoBlank(leaves, zeroValue, height - 1, 2 * pos + 1);
    }
  }
}
