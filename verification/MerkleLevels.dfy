/** The tree read level by level: how root, audit path and consistency proof relate
    to those of the tree whose lowest level has been hashed away. This is the bridge
    between the top-down definitions of RFC 6962 and every bottom-up walk.
    A node of the lower level has number `2j` or `2j + 1`, its parent number `j`. */
module MerkleLevels {
  import opened Common
  import opened MerkleSpec

  /** One level up: neighbours are combined, a last node without neighbour moves up. */
  function Up(f: NodeHash, d: seq<Uint256>): (u: seq<Uint256>)
    ensures |d| <= 2 * |u| <= |d| + 1
  {
    if |d| <= 1 then d else [f(d[0], d[1])] + Up(f, d[2..])
  }

  /** The node above positions `2j` and `2j + 1`. */
  function Above(f: NodeHash, j: nat, d: seq<Uint256>): Uint256
    requires 2 * j < |d|
  {
    if 2 * j + 1 < |d| then f(d[2 * j], d[2 * j + 1]) else d[2 * j]
  }

  lemma {:induction false} UpAt(f: NodeHash, d: seq<Uint256>, j: nat)
    requires 2 * j < |d|
    ensures Up(f, d)[j] == Above(f, j, d)
  {
    if j > 0 { UpAt(f, d[2..], j - 1); }
  }

  /** Splitting at an even place commutes with going one level up. */
  lemma {:induction false} UpJoin(f: NodeHash, h: nat, l: seq<Uint256>, r: seq<Uint256>)
    requires |l| == 2 * h
    ensures Up(f, l + r) == Up(f, l) + Up(f, r)
  {
    if h == 0 {
      assert l + r == r;
    } else {
      UpJoin(f, h - 1, l[2..], r);
      assert (l + r)[2..] == l[2..] + r;
    }
  }

  /** The tree one level up. */
  function Raise(f: NodeHash, t: Tree): Tree
  {
    match t
    case Leaf(_) => t
    case Node(Leaf(a), Leaf(b)) => Leaf(f(a, b))
    case Node(l, r) => Node(Raise(f, l), Raise(f, r))
  }

  lemma {:induction false} RaiseHash(f: NodeHash, t: Tree)
    ensures Hash(f, Raise(f, t)) == Hash(f, t)
  {
    if t.Node? {
      RaiseHash(f, t.left);
      RaiseHash(f, t.right);
    }
  }

  lemma {:induction false} RaiseFull(f: NodeHash, t: Tree)
    requires Full(t) && t.Node?
    ensures Full(Raise(f, t)) && Size(t) == 2 * Size(Raise(f, t))
  {
    if t.left.Node? && t.right.Node? {
      RaiseFull(f, t.left);
      RaiseFull(f, t.right);
    }
  }

  lemma {:induction false} RaiseShaped(f: NodeHash, t: Tree)
    requires Shaped(t)
    ensures Shaped(Raise(f, t)) && Size(t) <= 2 * Size(Raise(f, t)) <= Size(t) + 1
    ensures Leaves(Raise(f, t)) == Up(f, Leaves(t))
  {
    if t.Node? && t.left.Node? {
      RaiseFull(f, t.left);
      FullIsShaped(t.left);
      RaiseShaped(f, t.left);
      RaiseShaped(f, t.right);
      LeavesCount(t.left);
      UpJoin(f, Size(Raise(f, t.left)), Leaves(t.left), Leaves(t.right));
    } else if t.Node? {
      assert t.right.Leaf?;
      assert Leaves(t) == [t.left.hash, t.right.hash];
    }
  }

  /** The neighbour of node `m` on its level, if it has one. */
  function Sibling(m: nat, odd: bool, d: seq<Uint256>): seq<Uint256>
    requires m < |d| && (odd ==> m > 0)
  {
    if odd then [d[m - 1]] else if m + 1 < |d| then [d[m + 1]] else []
  }

  /** Node `j` is the parent of node `m`. */
  predicate ParentOf(j: nat, m: nat, odd: bool)
  {
    m == if odd then 2 * j + 1 else 2 * j
  }

  /** An audit path is the sibling followed by the path one level up. */
  ghost predicate PathRises(f: NodeHash, m: nat, j: nat, odd: bool, t: Tree)
  {
    && m < Size(t) == |Leaves(t)| && (odd ==> m > 0)
    && j < Size(Raise(f, t))
    && Path(f, m, t) == Sibling(m, odd, Leaves(t)) + Path(f, j, Raise(f, t))
  }

  lemma RaiseNode(f: NodeHash, l: Tree, r: Tree)
    requires l.Node?
    ensures Raise(f, Node(l, r)) == Node(Raise(f, l), Raise(f, r))
    ensures Hash(f, Raise(f, l)) == Hash(f, l) && Hash(f, Raise(f, r)) == Hash(f, r)
    ensures |Leaves(l)| == Size(l) && |Leaves(r)| == Size(r)
  {
    RaiseHash(f, l);
    RaiseHash(f, r);
    LeavesCount(l);
    LeavesCount(r);
  }

  lemma PathLeft(f: NodeHash, m: nat, l: Tree, r: Tree)
    requires m < Size(l)
    ensures Path(f, m, Node(l, r)) == Path(f, m, l) + [Hash(f, r)]
  {
  }

  lemma PathRight(f: NodeHash, m: nat, l: Tree, r: Tree)
    requires m < Size(r)
    ensures Path(f, m + Size(l), Node(l, r)) == Path(f, m, r) + [Hash(f, l)]
  {
  }

  lemma PathRaiseSmall(f: NodeHash, m: nat, j: nat, odd: bool, t: Tree)
    requires Shaped(t) && m < Size(t) && ParentOf(j, m, odd) && (t.Leaf? || t.left.Leaf?)
    ensures PathRises(f, m, j, odd, t)
  {
    if t.Node? {
      assert t.right.Leaf?;
      assert Leaves(t) == [t.left.hash, t.right.hash];
    }
  }

  lemma SiblingLeft(m: nat, odd: bool, l: seq<Uint256>, r: seq<Uint256>)
    requires m < |l| && (odd ==> m > 0) && (odd || m + 1 < |l|)
    ensures Sibling(m, odd, l + r) == Sibling(m, odd, l)
  {
  }

  lemma SizeNode(l: Tree, r: Tree)
    ensures Size(Node(l, r)) == Size(l) + Size(r)
    ensures Leaves(Node(l, r)) == Leaves(l) + Leaves(r)
  {
  }

  lemma PathRaiseLeft(f: NodeHash, m: nat, j: nat, odd: bool, l: Tree, r: Tree)
    requires l.Node? && PathRises(f, m, j, odd, l) && (odd || m + 1 < Size(l))
    ensures PathRises(f, m, j, odd, Node(l, r))
  {
    hide Path, Raise, Hash, Sibling, Leaves, Size;
    RaiseNode(f, l, r);
    SizeNode(l, r);
    SizeNode(Raise(f, l), Raise(f, r));
    SiblingLeft(m, odd, Leaves(l), Leaves(r));
    PathLeft(f, m, l, r);
    PathLeft(f, j, Raise(f, l), Raise(f, r));
    Assoc(Sibling(m, odd, Leaves(l)), Path(f, j, Raise(f, l)), [Hash(f, r)]);
  }

  lemma SiblingRight(m: nat, odd: bool, l: seq<Uint256>, r: seq<Uint256>)
    requires m < |r| && (odd ==> m > 0)
    ensures Sibling(m + |l|, odd, l + r) == Sibling(m, odd, r)
  {
  }

  lemma PathRaiseRight(f: NodeHash, m: nat, j: nat, odd: bool, l: Tree, r: Tree)
    requires l.Node? && PathRises(f, m, j, odd, r)
    ensures PathRises(f, m + Size(l), j + Size(Raise(f, l)), odd, Node(l, r))
  {
    hide Path, Raise, Hash, Sibling, Leaves, Size;
    RaiseNode(f, l, r);
    SizeNode(l, r);
    SizeNode(Raise(f, l), Raise(f, r));
    SiblingRight(m, odd, Leaves(l), Leaves(r));
    PathRight(f, m, l, r);
    PathRight(f, j, Raise(f, l), Raise(f, r));
    Assoc(Sibling(m, odd, Leaves(r)), Path(f, j, Raise(f, r)), [Hash(f, l)]);
  }

  lemma {:induction false} PathRaise(f: NodeHash, m: nat, j: nat, odd: bool, t: Tree)
    requires Shaped(t) && m < Size(t) && ParentOf(j, m, odd)
    ensures PathRises(f, m, j, odd, t)
    decreases t
  {
    hide PathRises;
    if t.Leaf? || t.left.Leaf? {
      PathRaiseSmall(f, m, j, odd, t);
    } else {
      var l, r := t.left, t.right;
      var k, h := Size(l), Size(Raise(f, l));
      RaiseFull(f, l);
      if j < h {
        FullIsShaped(l);
        PathRaise(f, m, j, odd, l);
        PathRaiseLeft(f, m, j, odd, l, r);
      } else {
        PathRaise(f, m - k, j - h, odd, r);
        PathRaiseRight(f, m - k, j - h, odd, l, r);
      }
    }
  }

  /** An old tree of even size has the same consistency proof one level up. */
  ghost predicate ProofRises(f: NodeHash, m: nat, j: nat, t: Tree, b: bool)
  {
    && 0 < m <= Size(t) && 0 < j <= Size(Raise(f, t))
    && Subproof(f, m, t, b) == Subproof(f, j, Raise(f, t), b)
  }

  lemma ProofLeft(f: NodeHash, m: nat, l: Tree, r: Tree, b: bool)
    requires 0 < m <= Size(l)
    ensures Subproof(f, m, Node(l, r), b) == Subproof(f, m, l, b) + [Hash(f, r)]
  {
  }

  lemma ProofRight(f: NodeHash, m: nat, l: Tree, r: Tree, b: bool)
    requires 0 < m < Size(r)
    ensures Subproof(f, m + Size(l), Node(l, r), b) == Subproof(f, m, r, false) + [Hash(f, l)]
  {
  }

  lemma SubproofRaiseWhole(f: NodeHash, m: nat, j: nat, t: Tree, b: bool)
    requires Shaped(t) && 0 < m == Size(t) && m == 2 * j
    ensures ProofRises(f, m, j, t, b)
  {
    RaiseShaped(f, t);
    RaiseHash(f, t);
  }

  lemma ProofRaiseLeft(f: NodeHash, m: nat, j: nat, l: Tree, r: Tree, b: bool)
    requires l.Node? && ProofRises(f, m, j, l, b)
    ensures ProofRises(f, m, j, Node(l, r), b)
  {
    hide Subproof, Raise, Hash, Leaves, Size;
    RaiseNode(f, l, r);
    SizeNode(l, r);
    SizeNode(Raise(f, l), Raise(f, r));
    ProofLeft(f, m, l, r, b);
    ProofLeft(f, j, Raise(f, l), Raise(f, r), b);
  }

  lemma ProofRaiseRight(f: NodeHash, m: nat, j: nat, l: Tree, r: Tree, b: bool)
    requires l.Node? && ProofRises(f, m, j, r, false) && m < Size(r) && j < Size(Raise(f, r))
    ensures ProofRises(f, m + Size(l), j + Size(Raise(f, l)), Node(l, r), b)
  {
    hide Subproof, Raise, Hash, Leaves, Size;
    RaiseNode(f, l, r);
    SizeNode(l, r);
    SizeNode(Raise(f, l), Raise(f, r));
    ProofRight(f, m, l, r, b);
    ProofRight(f, j, Raise(f, l), Raise(f, r), b);
  }

  lemma {:induction false} SubproofRaise(f: NodeHash, m: nat, j: nat, t: Tree, b: bool)
    requires Shaped(t) && 0 < m <= Size(t) && m == 2 * j
    ensures ProofRises(f, m, j, t, b)
    decreases t
  {
    hide ProofRises;
    if m == Size(t) {
      SubproofRaiseWhole(f, m, j, t, b);
    } else {
      hide Subproof, Hash, Leaves;
      var l, r := t.left, t.right;
      var k, h := Size(l), Size(Raise(f, l));
      RaiseFull(f, l);
      if j <= h {
        FullIsShaped(l);
        SubproofRaise(f, m, j, l, b);
        ProofRaiseLeft(f, m, j, l, r, b);
      } else {
        RaiseShaped(f, r);
        SubproofRaise(f, m - k, j - h, r, false);
        ProofRaiseRight(f, m - k, j - h, l, r, b);
      }
    }
  }

  /** For an old tree of odd size the proof is the last old leaf `m` (unless it is the
      whole old tree) followed by that leaf's audit path in the new tree. */
  ghost predicate ProofFromLeaf(f: NodeHash, m: nat, t: Tree, b: bool)
  {
    && m < Size(t) == |Leaves(t)|
    && Subproof(f, m + 1, t, b) == (if m == 0 && b then [] else [Leaves(t)[m]]) + Path(f, m, t)
  }

  lemma SubproofOddSmall(f: NodeHash, m: nat, t: Tree, b: bool)
    requires Shaped(t) && (t.Leaf? || t.left.Leaf?) && (m + 1 < Size(t) || (m == 0 && t.Leaf?))
    ensures ProofFromLeaf(f, m, t, b)
  {
    if t.Node? {
      assert t.right.Leaf?;
      assert Leaves(t) == [t.left.hash, t.right.hash];
    }
  }

  lemma LeafLeft(f: NodeHash, m: nat, l: Tree, r: Tree, b: bool)
    requires ProofFromLeaf(f, m, l, b)
    ensures ProofFromLeaf(f, m, Node(l, r), b)
  {
    hide Subproof, Path, Hash, Leaves, Size;
    LeavesCount(r);
    SizeNode(l, r);
    ProofLeft(f, m + 1, l, r, b);
    PathLeft(f, m, l, r);
    Assoc(if m == 0 && b then [] else [Leaves(l)[m]], Path(f, m, l), [Hash(f, r)]);
  }

  lemma LeafRight(f: NodeHash, m: nat, l: Tree, r: Tree, b: bool)
    requires ProofFromLeaf(f, m, r, false) && m + 1 < Size(r)
    ensures ProofFromLeaf(f, m + Size(l), Node(l, r), b)
  {
    hide Subproof, Path, Hash, Leaves, Size;
    LeavesCount(l);
    SizeNode(l, r);
    ProofRight(f, m + 1, l, r, b);
    PathRight(f, m, l, r);
    assert m + Size(l) + 1 == (m + 1) + Size(l);
    assert (Leaves(l) + Leaves(r))[m + Size(l)] == Leaves(r)[m];
    Assoc([Leaves(r)[m]], Path(f, m, r), [Hash(f, l)]);
  }

  lemma {:induction false} SubproofOdd(f: NodeHash, m: nat, j: nat, t: Tree, b: bool)
    requires Shaped(t) && m == 2 * j && (m + 1 < Size(t) || (m == 0 && t.Leaf?))
    ensures ProofFromLeaf(f, m, t, b)
    decreases t
  {
    hide ProofFromLeaf;
    if t.Leaf? || t.left.Leaf? {
      SubproofOddSmall(f, m, t, b);
    } else {
      var l, r := t.left, t.right;
      var k, h := Size(l), Size(Raise(f, l));
      RaiseFull(f, l);
      if j < h {
        FullIsShaped(l);
        SubproofOdd(f, m, j, l, b);
        LeafLeft(f, m, l, r, b);
      } else {
        SubproofOdd(f, m - k, j - h, r, false);
        LeafRight(f, m - k, l, r, b);
      }
    }
  }

  // ---------- the same, bottom up ----------

  /** The root, one level at a time. */
  function LevelRoot(f: NodeHash, d: seq<Uint256>): Uint256
    requires |d| > 0
    decreases |d|
  {
    if |d| == 1 then d[0] else LevelRoot(f, Up(f, d))
  }

  /** The audit path of leaf `m`, one level at a time. */
  function LevelPath(f: NodeHash, m: nat, d: seq<Uint256>): seq<Uint256>
    requires m < |d|
    decreases |d|
  {
    if |d| == 1 then [] else Sibling(m, m % 2 == 1, d) + LevelPath(f, m / 2, Up(f, d))
  }

  /** A list and the list one level up have the same root. */
  lemma RootUp(f: NodeHash, d: seq<Uint256>)
    requires |d| > 0
    ensures Root(f, Up(f, d)) == Root(f, d)
    ensures TreeOf(Up(f, d)) == Raise(f, TreeOf(d))
  {
    TreeOfShaped(d);
    RaiseShaped(f, TreeOf(d));
    RaiseHash(f, TreeOf(d));
    ShapedIsTreeOf(Raise(f, TreeOf(d)));
  }

  lemma {:induction false} LevelRootIsRoot(f: NodeHash, d: seq<Uint256>)
    requires |d| > 0
    ensures LevelRoot(f, d) == Root(f, d)
    decreases |d|
  {
    if |d| > 1 {
      RootUp(f, d);
      LevelRootIsRoot(f, Up(f, d));
    }
  }

  /** PATH(m, D) for the list D. */
  function PathOf(f: NodeHash, m: nat, d: seq<Uint256>): seq<Uint256>
    requires m < |d|
  {
    TreeOfShaped(d);
    Path(f, m, TreeOf(d))
  }

  lemma PathOfUp(f: NodeHash, m: nat, j: nat, odd: bool, d: seq<Uint256>)
    requires m < |d| && ParentOf(j, m, odd)
    ensures PathOf(f, m, d) == Sibling(m, odd, d) + PathOf(f, j, Up(f, d))
  {
    TreeOfShaped(d);
    RootUp(f, d);
    PathRaise(f, m, j, odd, TreeOf(d));
  }

  lemma {:induction false} LevelPathIsPath(f: NodeHash, m: nat, d: seq<Uint256>)
    requires m < |d|
    ensures LevelPath(f, m, d) == PathOf(f, m, d)
    decreases |d|
  {
    if |d| > 1 {
      hide PathOf, Sibling;
      PathOfUp(f, m, m / 2, m % 2 == 1, d);
      LevelPathIsPath(f, m / 2, Up(f, d));
    }
  }

  /** PROOF(m, D) for the list D. */
  function ProofOf(f: NodeHash, m: nat, d: seq<Uint256>): seq<Uint256>
    requires 0 < m <= |d|
  {
    TreeOfShaped(d);
    Subproof(f, m, TreeOf(d), true)
  }

  lemma ProofUp(f: NodeHash, m: nat, j: nat, d: seq<Uint256>)
    requires 0 < m <= |d| && m == 2 * j
    ensures ProofOf(f, m, d) == ProofOf(f, j, Up(f, d))
  {
    TreeOfShaped(d);
    RootUp(f, d);
    SubproofRaise(f, m, j, TreeOf(d), true);
  }

  /** An old tree of odd size: the last old leaf, then its audit path. */
  lemma ProofAtLeaf(f: NodeHash, m: nat, j: nat, d: seq<Uint256>)
    requires m + 1 < |d| && m == 2 * j
    ensures ProofOf(f, m + 1, d) == (if m == 0 then [] else [d[m]]) + LevelPath(f, m, d)
  {
    hide Subproof, Path, LevelPath, Shaped;
    TreeOfShaped(d);
    SubproofOdd(f, m, j, TreeOf(d), true);
    LevelPathIsPath(f, m, d);
  }

  // ---------- what is hashed ----------

  /** The inputs hashed on the way from one level to the next. */
  function LowInputs(d: seq<Uint256>): set<Pair>
  {
    if |d| <= 1 then {} else {(d[0], d[1])} + LowInputs(d[2..])
  }

  function LevelInputs(f: NodeHash, d: seq<Uint256>): set<Pair>
    decreases |d|
  {
    if |d| <= 1 then {} else LowInputs(d) + LevelInputs(f, Up(f, d))
  }

  lemma {:induction false} LowInputAt(d: seq<Uint256>, j: nat)
    requires 2 * j + 1 < |d|
    ensures (d[2 * j], d[2 * j + 1]) in LowInputs(d)
    decreases j
  {
    if j > 0 { LowInputAt(d[2..], j - 1); }
  }

  /** Node `m` is hashed together with its neighbour, if it has one. */
  lemma InputAt(f: NodeHash, m: nat, j: nat, d: seq<Uint256>)
    requires m < |d| && |d| > 1 && j == m / 2
    ensures m % 2 == 1 ==> (d[m - 1], d[m]) in LevelInputs(f, d)
    ensures m % 2 == 0 && m + 1 < |d| ==> (d[m], d[m + 1]) in LevelInputs(f, d)
    ensures LevelInputs(f, Up(f, d)) <= LevelInputs(f, d)
  {
    hide Up, LowInputs;
    if m % 2 == 1 {
      assert m == 2 * j + 1;
      LowInputAt(d, j);
    } else if m + 1 < |d| {
      assert m == 2 * j;
      LowInputAt(d, j);
    }
  }

  lemma {:induction false} LowInputsJoin(h: nat, l: seq<Uint256>, r: seq<Uint256>)
    requires |l| == 2 * h
    ensures LowInputs(l + r) == LowInputs(l) + LowInputs(r)
  {
    if h == 0 {
      assert l + r == r;
    } else {
      LowInputsJoin(h - 1, l[2..], r);
      assert (l + r)[2..] == l[2..] + r;
    }
  }

  lemma InputsRaiseSmall(f: NodeHash, t: Tree)
    requires Shaped(t) && (t.Leaf? || t.left.Leaf?)
    ensures Inputs(f, t) == LowInputs(Leaves(t)) + Inputs(f, Raise(f, t))
  {
    if t.Node? {
      assert t.right.Leaf?;
      assert Leaves(t) == [t.left.hash, t.right.hash];
      assert Leaves(t)[2..] == [];
    }
  }

  /** The inputs of a tree are those of its lowest level and of the raised tree. */
  lemma {:induction false} InputsRaise(f: NodeHash, t: Tree)
    requires Shaped(t)
    ensures Inputs(f, t) == LowInputs(Leaves(t)) + Inputs(f, Raise(f, t))
  {
    if t.Node? && t.left.Node? {
      hide LowInputs;
      var l, r := t.left, t.right;
      RaiseFull(f, l);
      FullIsShaped(l);
      InputsRaise(f, l);
      InputsRaise(f, r);
      RaiseNode(f, l, r);
      LowInputsJoin(Size(Raise(f, l)), Leaves(l), Leaves(r));
    } else {
      InputsRaiseSmall(f, t);
    }
  }

  lemma SingleInputs(f: NodeHash, d: seq<Uint256>)
    requires |d| == 1
    ensures LevelInputs(f, d) == {} && Inputs(f, TreeOf(d)) == {}
  {
  }

  /** Level by level or by recursion, the same inputs are hashed. */
  lemma {:induction false} LevelInputsAreInputs(f: NodeHash, d: seq<Uint256>)
    requires |d| > 0
    ensures LevelInputs(f, d) == Inputs(f, TreeOf(d))
    decreases |d|
  {
    if |d| > 1 {
      hide LowInputs, Inputs, Up, Raise;
      TreeOfShaped(d);
      InputsRaise(f, TreeOf(d));
      RootUp(f, d);
      LevelInputsAreInputs(f, Up(f, d));
    } else {
      SingleInputs(f, d);
    }
  }

  // ---------- all levels at once ----------

  /** `ceil(log2 n)`: the number of levels above the leaves. */
  function Depth(n: nat): nat
    requires n > 0
  {
    if n == 1 then 0 else 1 + Depth((n + 1) / 2)
  }

  function UpBy(f: NodeHash, d: seq<Uint256>, levels: nat): (u: seq<Uint256>)
    ensures |d| > 0 ==> |u| > 0
    decreases levels
  {
    if levels == 0 then d else UpBy(f, Up(f, d), levels - 1)
  }

  lemma {:induction false} TopLevel(f: NodeHash, d: seq<Uint256>)
    requires |d| > 0
    ensures UpBy(f, d, Depth(|d|)) == [Root(f, d)]
    decreases |d|
  {
    if |d| > 1 {
      hide Root;
      assert |Up(f, d)| == (|d| + 1) / 2;
      RootUp(f, d);
      TopLevel(f, Up(f, d));
    }
  }
}
