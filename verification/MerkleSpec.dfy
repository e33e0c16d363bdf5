/** The Merkle tree of section 2.1 of RFC 6962: the shape over a list of leaf
    hashes, its root, its audit paths (section 2.1.1), its consistency proofs
    (section 2.1.2) and its nodes in post-order. Interior hashing is a parameter. */
module MerkleSpec {
  import opened Common
  import opened Bits

  type NodeHash = (Uint256, Uint256) -> Uint256

  datatype Tree = Leaf(hash: Uint256) | Node(left: Tree, right: Tree)

  function Leaves(t: Tree): (d: seq<Uint256>)
    ensures |d| > 0
  {
    match t
    case Leaf(h) => [h]
    case Node(l, r) => Leaves(l) + Leaves(r)
  }

  function Size(t: Tree): (n: nat)
    ensures n > 0
  {
    match t
    case Leaf(_) => 1
    case Node(l, r) => Size(l) + Size(r)
  }

  lemma {:induction false} LeavesCount(t: Tree)
    ensures |Leaves(t)| == Size(t)
  {
    match t
    case Leaf(_) =>
    case Node(l, r) =>
      LeavesCount(l);
      LeavesCount(r);
  }

  /** The tree over `d`: the left part is the largest power of two below its size. */
  function TreeOf(d: seq<Uint256>): (t: Tree)
    requires |d| > 0
    ensures Leaves(t) == d
    decreases |d|
  {
    if |d| == 1 then Leaf(d[0])
    else
      var k := Split(|d|);
      assert d == d[..k] + d[k..];
      Node(TreeOf(d[..k]), TreeOf(d[k..]))
  }

  /** MTH(D[n]), for the tree over D[n]. */
  function Hash(f: NodeHash, t: Tree): Uint256
  {
    match t
    case Leaf(h) => h
    case Node(l, r) => f(Hash(f, l), Hash(f, r))
  }

  /** The inputs hashed on the way to the hash of a tree. */
  function Inputs(f: NodeHash, t: Tree): set<Pair>
  {
    match t
    case Leaf(_) => {}
    case Node(l, r) => {(Hash(f, l), Hash(f, r))} + Inputs(f, l) + Inputs(f, r)
  }

  /** PATH(m, D[n]), from the leaf upwards. */
  function Path(f: NodeHash, m: nat, t: Tree): seq<Uint256>
    requires m < Size(t)
  {
    match t
    case Leaf(_) => []
    case Node(l, r) =>
      if m < Size(l) then Path(f, m, l) + [Hash(f, r)]
      else Path(f, m - Size(l), r) + [Hash(f, l)]
  }

  /** SUBPROOF(m, D[n], b), from the leaves upwards. */
  function Subproof(f: NodeHash, m: nat, t: Tree, b: bool): seq<Uint256>
    requires 0 < m <= Size(t)
  {
    if m == Size(t) then if b then [] else [Hash(f, t)]
    else
      var Node(l, r) := t;
      if m <= Size(l) then Subproof(f, m, l, b) + [Hash(f, r)]
      else Subproof(f, m - Size(l), r, false) + [Hash(f, l)]
  }

  // ---------- the shape ----------

  predicate Full(t: Tree)
  {
    t.Leaf? || (Size(t.left) == Size(t.right) && Full(t.left) && Full(t.right))
  }

  /** Full on the left, at most as large and of the same shape on the right. */
  predicate Shaped(t: Tree)
  {
    t.Leaf? || (Full(t.left) && Size(t.right) <= Size(t.left) && Shaped(t.right))
  }

  lemma {:induction false} FullIsShaped(t: Tree)
    requires Full(t)
    ensures Shaped(t)
  {
    if t.Node? { FullIsShaped(t.right); }
  }

  lemma {:induction false} FullIsPerfect(t: Tree)
    requires Full(t)
    ensures Perfect(Size(t))
  {
    if t.Node? {
      FullIsPerfect(t.left);
      PerfectDouble(Size(t.left));
    }
  }

  lemma ShapedSplit(t: Tree)
    requires Shaped(t) && t.Node?
    ensures Split(Size(t)) == Size(t.left)
  {
    FullIsPerfect(t.left);
    SplitAt(Size(t), Size(t.left));
  }

  lemma {:induction false} PerfectIsFull(t: Tree)
    requires Shaped(t) && Perfect(Size(t))
    ensures Full(t)
  {
    if t.Node? {
      ShapedSplit(t);
      FullIsPerfect(t.left);
      PerfectIsFull(t.right);
    }
  }

  lemma {:induction false} TreeOfShaped(d: seq<Uint256>)
    requires |d| > 0
    ensures Shaped(TreeOf(d)) && Size(TreeOf(d)) == |d|
    decreases |d|
  {
    LeavesCount(TreeOf(d));
    if |d| > 1 {
      var k := Split(|d|);
      var l, r := TreeOf(d[..k]), TreeOf(d[k..]);
      TreeOfShaped(d[..k]);
      TreeOfShaped(d[k..]);
      LeftIsPerfect(|d|);
      PerfectIsFull(l);
    }
  }

  /** The shape is determined by the leaves. */
  lemma {:induction false} ShapedIsTreeOf(t: Tree)
    requires Shaped(t)
    ensures TreeOf(Leaves(t)) == t
  {
    match t
    case Leaf(_) =>
    case Node(l, r) =>
      LeavesCount(t);
      LeavesCount(l);
      ShapedSplit(t);
      FullIsShaped(l);
      ShapedIsTreeOf(l);
      ShapedIsTreeOf(r);
      assert Leaves(t)[..Size(l)] == Leaves(l) && Leaves(t)[Size(l)..] == Leaves(r);
  }

  /** The root of a non-empty list of leaf hashes. */
  function Root(f: NodeHash, d: seq<Uint256>): Uint256
    requires |d| > 0
  {
    Hash(f, TreeOf(d))
  }

  // ---------- full subtrees ----------

  /** The full subtrees down the right spine, largest first. */
  function Forest(t: Tree): (g: seq<Tree>)
    ensures |g| > 0
  {
    if Full(t) then [t] else [t.left] + Forest(t.right)
  }

  /** The tree that hangs a list of trees down its right spine. */
  function Spine(g: seq<Tree>): Tree
    requires |g| > 0
  {
    if |g| == 1 then g[0] else Node(g[0], Spine(g[1..]))
  }

  /** `_hash_fold`: hashes combined from the right. */
  function Fold(f: NodeHash, hs: seq<Uint256>): Uint256
    requires |hs| > 0
  {
    if |hs| == 1 then hs[0] else f(hs[0], Fold(f, hs[1..]))
  }

  function Hashes(f: NodeHash, g: seq<Tree>): (hs: seq<Uint256>)
    ensures |hs| == |g|
    ensures forall i :: 0 <= i < |g| ==> hs[i] == Hash(f, g[i])
  {
    seq(|g|, i requires 0 <= i < |g| => Hash(f, g[i]))
  }

  lemma {:induction false} SpineForest(t: Tree)
    ensures Spine(Forest(t)) == t
  {
    if !Full(t) {
      SpineForest(t.right);
      assert Forest(t)[1..] == Forest(t.right);
    }
  }

  /** Folding the hashes of a spine gives the hash of its tree. */
  lemma {:induction false} FoldSpine(f: NodeHash, g: seq<Tree>)
    requires |g| > 0
    ensures Fold(f, Hashes(f, g)) == Hash(f, Spine(g))
  {
    if |g| > 1 {
      FoldSpine(f, g[1..]);
      assert Hashes(f, g)[1..] == Hashes(f, g[1..]);
    }
  }

  /** Two trees at the end of a spine may be joined first. */
  lemma {:induction false} SpineJoin(g: seq<Tree>, a: Tree, b: Tree)
    ensures Spine(g + [a, b]) == Spine(g + [Node(a, b)])
  {
    if |g| == 0 {
      assert g + [a, b] == [a, b] && g + [Node(a, b)] == [Node(a, b)];
      assert [a, b][1..] == [b];
    } else {
      SpineJoin(g[1..], a, b);
      assert (g + [a, b])[1..] == g[1..] + [a, b];
      assert (g + [Node(a, b)])[1..] == g[1..] + [Node(a, b)];
    }
  }

  // ---------- appending ----------

  function Append(t: Tree, x: Uint256): Tree
  {
    if Full(t) then Node(t, Leaf(x)) else Node(t.left, Append(t.right, x))
  }

  lemma NotFullHasRoom(t: Tree)
    requires Shaped(t) && !Full(t)
    ensures Size(t.right) < Size(t.left)
  {
    if Size(t.right) == Size(t.left) {
      FullIsPerfect(t.left);
      PerfectIsFull(t.right);
    }
  }

  lemma {:induction false} AppendShaped(t: Tree, x: Uint256)
    requires Shaped(t)
    ensures Shaped(Append(t, x))
    ensures Leaves(Append(t, x)) == Leaves(t) + [x]
    ensures Size(Append(t, x)) == Size(t) + 1
  {
    if !Full(t) {
      AppendShaped(t.right, x);
      NotFullHasRoom(t);
    }
  }

  /** Appending to the list is appending to the tree. */
  lemma TreeOfAppend(d: seq<Uint256>, x: Uint256)
    requires |d| > 0
    ensures TreeOf(d + [x]) == Append(TreeOf(d), x)
  {
    TreeOfShaped(d);
    AppendShaped(TreeOf(d), x);
    ShapedIsTreeOf(Append(TreeOf(d), x));
  }

  /** An appended leaf hangs at the end of the spine. */
  lemma {:induction false} AppendIsSpine(t: Tree, x: Uint256)
    ensures Append(t, x) == Spine(Forest(t) + [Leaf(x)])
  {
    if Full(t) {
      assert (Forest(t) + [Leaf(x)])[1..] == [Leaf(x)];
    } else {
      AppendIsSpine(t.right, x);
      assert (Forest(t) + [Leaf(x)])[1..] == Forest(t.right) + [Leaf(x)];
    }
  }

  // ---------- falling forests ----------

  /** Full trees of strictly falling size: the form of every `Forest`. */
  ghost predicate Falling(g: seq<Tree>)
  {
    && (forall i :: 0 <= i < |g| ==> Full(g[i]))
    && (forall i, j :: 0 <= i < j < |g| ==> Size(g[j]) < Size(g[i]))
  }

  lemma {:induction false} FallingSpine(g: seq<Tree>)
    requires |g| > 0 && Falling(g)
    ensures Shaped(Spine(g)) && Forest(Spine(g)) == g
    ensures Size(g[0]) <= Size(Spine(g)) < 2 * Size(g[0])
  {
    if |g| == 1 {
      FullIsShaped(g[0]);
    } else {
      hide Perfect;
      var rest := Spine(g[1..]);
      FallingSpine(g[1..]);
      FullIsPerfect(g[0]);
      FullIsPerfect(g[1]);
      PerfectOrder(Size(g[1]), Size(g[0]));
      assert Size(rest) < Size(g[0]);
      assert g == [g[0]] + Forest(rest);
    }
  }

  lemma {:induction false} ForestFalling(t: Tree)
    requires Shaped(t)
    ensures Falling(Forest(t))
    ensures forall i :: 0 <= i < |Forest(t)| ==> Size(Forest(t)[i]) <= Size(t)
  {
    if !Full(t) {
      NotFullHasRoom(t);
      ForestFalling(t.right);
    }
  }

  lemma {:induction false} ForestCount(t: Tree)
    requires Shaped(t)
    ensures |Forest(t)| == CountBit(Size(t))
  {
    PerfectCount(Size(t));
    if Full(t) {
      FullIsPerfect(t);
    } else {
      if Perfect(Size(t)) { PerfectIsFull(t); }
      ShapedSplit(t);
      CountBitSplit(Size(t));
      ForestCount(t.right);
    }
  }

  function Total(g: seq<Tree>): nat
  {
    if |g| == 0 then 0 else Total(g[..|g| - 1]) + Size(g[|g| - 1])
  }

  lemma {:induction false} TotalMultiple(g: seq<Tree>, p: nat)
    requires Perfect(p)
    requires forall i :: 0 <= i < |g| ==> Full(g[i]) && p < Size(g[i])
    ensures Multiple(Total(g), 2 * p)
  {
    if |g| > 0 {
      var n := |g| - 1;
      TotalMultiple(g[..n], p);
      FullIsPerfect(g[n]);
      PerfectOrder(p, Size(g[n]));
      MultipleSum(Total(g[..n]), Size(g[n]), 2 * p);
    }
  }

  lemma LastParity(g: seq<Tree>, p: nat)
    requires Falling(g) && Perfect(p)
    requires forall i :: 0 <= i < |g| ==> p <= Size(g[i])
    ensures Multiple(Total(g), 2 * p) <==> (|g| == 0 || Size(g[|g| - 1]) > p)
  {
    if |g| == 0 || Size(g[|g| - 1]) > p {
      TotalMultiple(g, p);
    } else {
      var n := |g| - 1;
      TotalMultiple(g[..n], p);
      if Multiple(Total(g), 2 * p) { MultipleGap(Total(g[..n]), Total(g), 2 * p); }
    }
  }

  /** In units of the carried tree `c`, the forest before it is odd exactly when its
      last tree is as large as `c`; otherwise `c` continues the forest. */
  lemma CarryParity(g: seq<Tree>, c: Tree, s: nat)
    requires Falling(g) && Full(c) && Total(g) == s * Size(c)
    requires forall i :: 0 <= i < |g| ==> Size(c) <= Size(g[i])
    ensures s % 2 == 1 <==> |g| > 0 && Size(g[|g| - 1]) == Size(c)
    ensures s % 2 == 0 ==> Falling(g + [c])
  {
    FullIsPerfect(c);
    MultipleParity(s, Size(c));
    LastParity(g, Size(c));
  }

  lemma {:induction false} TotalFront(g: seq<Tree>)
    requires |g| > 0
    ensures Total(g) == Size(g[0]) + Total(g[1..])
  {
    if |g| > 1 {
      var n := |g| - 1;
      TotalFront(g[..n]);
      assert g[..n][1..] == g[1..][..n - 1];
    }
  }

  lemma {:induction false} SpineSize(g: seq<Tree>)
    requires |g| > 0
    ensures Size(Spine(g)) == Total(g)
  {
    if |g| > 1 {
      SpineSize(g[1..]);
      TotalFront(g);
    } else {
      assert Total(g[..0]) == 0;
    }
  }

  // ---------- the hash store ----------

  /** The nodes of a tree in post-order; a node that is not full yet is not stored. */
  function PostOrder(f: NodeHash, t: Tree): (s: seq<Uint256>)
    ensures |s| > 0
  {
    match t
    case Leaf(h) => [h]
    case Node(l, r) => PostOrder(f, l) + PostOrder(f, r) + (if Full(t) then [Hash(f, t)] else [])
  }

  function Nodes(f: NodeHash, g: seq<Tree>): seq<Uint256>
  {
    if |g| == 0 then [] else Nodes(f, g[..|g| - 1]) + PostOrder(f, g[|g| - 1])
  }

  /** What the store holds after the leaves `d` have been appended. */
  function Stored(f: NodeHash, d: seq<Uint256>): seq<Uint256>
  {
    if d == [] then [] else PostOrder(f, TreeOf(d))
  }

  lemma {:induction false} NodesFront(f: NodeHash, g: seq<Tree>)
    requires |g| > 0
    ensures Nodes(f, g) == PostOrder(f, g[0]) + Nodes(f, g[1..])
  {
    if |g| == 1 {
      assert Nodes(f, g[..0]) == [];
    } else {
      var n := |g| - 1;
      NodesFront(f, g[..n]);
      assert g[..n][1..] == g[1..][..n - 1];
    }
  }

  lemma {:induction false} NodesForest(f: NodeHash, t: Tree)
    ensures Nodes(f, Forest(t)) == PostOrder(f, t)
  {
    NodesFront(f, Forest(t));
    if !Full(t) {
      NodesForest(f, t.right);
      assert Forest(t)[1..] == Forest(t.right);
    }
  }

  lemma {:induction false} PostOrderFull(f: NodeHash, t: Tree)
    requires Full(t)
    ensures |PostOrder(f, t)| == 2 * Size(t) - 1
    ensures PostOrder(f, t)[2 * Size(t) - 2] == Hash(f, t)
  {
    if t.Node? {
      PostOrderFull(f, t.left);
      PostOrderFull(f, t.right);
    }
  }

  lemma {:induction false} PostOrderLength(f: NodeHash, t: Tree)
    requires Shaped(t)
    ensures |PostOrder(f, t)| == 2 * Size(t) - CountBit(Size(t))
  {
    PerfectCount(Size(t));
    if Full(t) {
      FullIsPerfect(t);
      PostOrderFull(f, t);
    } else {
      if Perfect(Size(t)) { PerfectIsFull(t); }
      ShapedSplit(t);
      CountBitSplit(Size(t));
      PostOrderFull(f, t.left);
      PostOrderLength(f, t.right);
    }
  }

  /** The store only grows. */
  lemma {:induction false} PostOrderGrows(f: NodeHash, t: Tree, x: Uint256)
    ensures PostOrder(f, t) <= PostOrder(f, Append(t, x))
  {
    if !Full(t) { PostOrderGrows(f, t.right, x); }
  }

  lemma {:induction false} StoredPrefix(f: NodeHash, d: seq<Uint256>, n: nat)
    requires n <= |d|
    ensures Stored(f, d[..n]) <= Stored(f, d)
    decreases |d| - n
  {
    if n == |d| {
      assert d[..n] == d;
    } else {
      StoredPrefix(f, d, n + 1);
      if n > 0 {
        assert d[..n] + [d[n]] == d[..n + 1];
        TreeOfAppend(d[..n], d[n]);
        PostOrderGrows(f, TreeOf(d[..n]), d[n]);
      }
    }
  }

  // ---------- positions in the store ----------

  /** Node counts of the full subtrees of a tree of `n` leaves, largest first. */
  function SubTreeSize(n: nat): (s: seq<nat>)
  {
    if n == 0 then []
    else if Perfect(n) then [2 * n - 1]
    else var k := Split(n); [2 * k - 1] + SubTreeSize(n - k)
  }

  function Sum(s: seq<nat>): nat
  {
    if |s| == 0 then 0 else s[0] + Sum(s[1..])
  }

  lemma {:induction false} SubTreeSizeSum(n: nat)
    ensures |SubTreeSize(n)| == CountBit(n)
    ensures Sum(SubTreeSize(n)) == 2 * n - CountBit(n)
  {
    PerfectCount(n);
    if n > 0 && !Perfect(n) {
      CountBitSplit(n);
      SubTreeSizeSum(n - Split(n));
      assert SubTreeSize(n)[1..] == SubTreeSize(n - Split(n));
    }
  }

  /** 1-based positions of the full subtrees' roots, after `offset` nodes. */
  function SubTreePos(n: nat, offset: nat): seq<nat>
    decreases n
  {
    if n == 0 then []
    else if Perfect(n) then [offset + 2 * n - 1]
    else var k := Split(n); [offset + 2 * k - 1] + SubTreePos(n - k, offset + 2 * k - 1)
  }

  /** The nodes of `t` occupy `store` from `offset` on. */
  ghost predicate StoredAt(f: NodeHash, store: seq<Uint256>, offset: nat, t: Tree)
  {
    offset <= |store| && PostOrder(f, t) <= store[offset..]
  }

  ghost predicate HoldsHashes(store: seq<Uint256>, pos: seq<nat>, hs: seq<Uint256>)
  {
    && |pos| == |hs|
    && forall i :: 0 <= i < |pos| ==> 0 < pos[i] <= |store| && store[pos[i] - 1] == hs[i]
  }

  lemma HashesFront(f: NodeHash, t: Tree, g: seq<Tree>)
    ensures Hashes(f, [t] + g) == [Hash(f, t)] + Hashes(f, g)
  {
  }

  lemma FullPosition(f: NodeHash, store: seq<Uint256>, offset: nat, t: Tree)
    requires Full(t) && StoredAt(f, store, offset, t)
    ensures HoldsHashes(store, [offset + 2 * Size(t) - 1], Hashes(f, Forest(t)))
  {
    PostOrderFull(f, t);
    assert store[offset..][2 * Size(t) - 2] == Hash(f, t);
  }

  lemma PositionsStep(t: Tree, offset: nat)
    requires Shaped(t)
    ensures SubTreePos(Size(t), offset) ==
      if Full(t) then [offset + 2 * Size(t) - 1]
      else var p := offset + 2 * Size(t.left) - 1; [p] + SubTreePos(Size(t.right), p)
  {
    if Full(t) {
      FullIsPerfect(t);
    } else {
      if Perfect(Size(t)) { PerfectIsFull(t); }
      ShapedSplit(t);
    }
  }

  lemma HoldsFront(store: seq<Uint256>, p: nat, pos: seq<nat>, h: Uint256, hs: seq<Uint256>)
    requires 0 < p <= |store| && store[p - 1] == h && HoldsHashes(store, pos, hs)
    ensures HoldsHashes(store, [p] + pos, [h] + hs)
  {
  }

  lemma StoredFront(store: seq<Uint256>, offset: nat, l: seq<Uint256>, r: seq<Uint256>)
    requires offset <= |store| && l + r <= store[offset..] && |l| > 0
    ensures l <= store[offset..] && offset + |l| <= |store| && r <= store[offset + |l|..]
    ensures store[offset + |l| - 1] == l[|l| - 1]
  {
    assert store[offset..][|l|..] == store[offset + |l|..];
    assert store[offset..][|l| - 1] == l[|l| - 1];
  }

  /** Where the two parts of a tree lie in the store. */
  lemma StoredParts(f: NodeHash, store: seq<Uint256>, offset: nat, t: Tree)
    requires t.Node? && Full(t.left) && StoredAt(f, store, offset, t)
    ensures StoredAt(f, store, offset, t.left)
    ensures StoredAt(f, store, offset + 2 * Size(t.left) - 1, t.right)
    ensures 0 < offset + 2 * Size(t.left) - 1 <= |store|
    ensures store[offset + 2 * Size(t.left) - 2] == Hash(f, t.left)
  {
    PostOrderFull(f, t.left);
    StoredFront(store, offset, PostOrder(f, t.left), PostOrder(f, t.right));
  }

  /** The computed positions hold the roots of the full subtrees. */
  lemma {:induction false} ForestPositions(f: NodeHash, store: seq<Uint256>, offset: nat, t: Tree)
    requires Shaped(t) && StoredAt(f, store, offset, t)
    ensures HoldsHashes(store, SubTreePos(Size(t), offset), Hashes(f, Forest(t)))
    decreases t
  {
    hide StoredAt, HoldsHashes, SubTreePos, Hash, Size;
    PositionsStep(t, offset);
    if Full(t) {
      FullPosition(f, store, offset, t);
    } else {
      var p := offset + 2 * Size(t.left) - 1;
      StoredParts(f, store, offset, t);
      ForestPositions(f, store, p, t.right);
      HoldsFront(store, p, SubTreePos(Size(t.right), p), Hash(f, t.left), Hashes(f, Forest(t.right)));
      HashesFront(f, t.left, Forest(t.right));
    }
  }
}
