/** `CompactMerkleTree` of merkle/merkle_tree.go: the append-only log that keeps only
    the roots of its full subtrees and writes every finished node to the hash store. */
module MerkleTree {
  import opened Common
  import opened Bits
  import opened MerkleSpec
  import opened MerkleLevels
  import opened MerkleStore
  import opened MerkleVerifier

  function ForestOf(d: seq<Uint256>): seq<Tree>
  {
    if d == [] then [] else Forest(TreeOf(d))
  }

  /** The kept hashes of a log of leaves `d`: the roots of its full subtrees. */
  function Kept(f: NodeHash, d: seq<Uint256>): seq<Uint256>
  {
    Hashes(f, ForestOf(d))
  }

  /** The root of a log that may be empty. */
  function LogRoot(f: NodeHash, empty: Uint256, d: seq<Uint256>): Uint256
  {
    if d == [] then empty else Root(f, d)
  }

  method Reverse(s: seq<Uint256>) returns (r: seq<Uint256>)
    ensures r == Reversed(s)
  {
    r := seq(|s|, _ => EMPTY_HASH);
    for k := 0 to |s|
      invariant |r| == |s| && forall i :: 0 <= i < k ==> r[|s| - 1 - i] == s[i]
    {
      r := r[|s| - k - 1 := s[k]];
    }
  }

  lemma ReversedLast(s: seq<Uint256>, x: Uint256)
    ensures Reversed(s + [x]) == [x] + Reversed(s)
  {
  }

  method HashFold(f: NodeHash, hashes: seq<Uint256>) returns (accum: Uint256)
    requires |hashes| > 0
    ensures accum == Fold(f, hashes)
  {
    var i := |hashes| - 1;
    accum := hashes[i];
    while i > 0
      invariant 0 <= i < |hashes| && accum == Fold(f, hashes[i..])
    {
      i := i - 1;
      assert hashes[i..][1..] == hashes[i + 1..];
      accum := f(hashes[i], accum);
    }
    assert hashes[0..] == hashes;
  }

  lemma KeptFold(f: NodeHash, d: seq<Uint256>)
    requires |d| > 0
    ensures |Kept(f, d)| > 0 && Fold(f, Kept(f, d)) == Root(f, d)
  {
    SpineForest(TreeOf(d));
    FoldSpine(f, Forest(TreeOf(d)));
  }

  lemma KeptCount(f: NodeHash, d: seq<Uint256>)
    ensures |Kept(f, d)| == CountBit(|d|)
  {
    if d != [] {
      TreeOfShaped(d);
      ForestCount(TreeOf(d));
    }
  }

  /** One more leaf folded onto the kept hashes gives the root after appending it. */
  lemma KeptFoldWithLeaf(f: NodeHash, d: seq<Uint256>, x: Uint256)
    ensures Fold(f, Kept(f, d) + [x]) == Root(f, d + [x])
  {
    if d == [] {
      assert Kept(f, d) + [x] == [x] == d + [x];
    } else {
      var g := Forest(TreeOf(d));
      TreeOfAppend(d, x);
      AppendIsSpine(TreeOf(d), x);
      FoldSpine(f, g + [Leaf(x)]);
      assert Hashes(f, g + [Leaf(x)]) == Kept(f, d) + [x];
    }
  }

  // ---------- the carry of an append ----------

  /** While a leaf `x` is appended to `d`: the full subtrees `g` that are left, the full
      tree `c` carried over them, and `s` the old size in units of `c`. */
  ghost predicate CarryFits(g: seq<Tree>, c: Tree, s: nat)
  {
    && Falling(g) && Full(c)
    && (forall i :: 0 <= i < |g| ==> Size(c) <= Size(g[i]))
    && Total(g) == s * Size(c)
  }

  /** Together they make up the new tree, and `out` are the nodes written so far. */
  ghost predicate CarryHolds(f: NodeHash, d: seq<Uint256>, x: Uint256, g: seq<Tree>, c: Tree, out: seq<Uint256>)
  {
    && Spine(g + [c]) == TreeOf(d + [x])
    && Nodes(f, g) + PostOrder(f, c) == Stored(f, d) + out
  }

  lemma CarryFitsAtStart(d: seq<Uint256>, x: Uint256)
    ensures CarryFits(ForestOf(d), Leaf(x), |d|)
  {
    if d != [] {
      TreeOfShaped(d);
      ForestFalling(TreeOf(d));
      SpineForest(TreeOf(d));
      SpineSize(Forest(TreeOf(d)));
    }
  }

  lemma CarryHoldsAtStart(f: NodeHash, d: seq<Uint256>, x: Uint256)
    ensures CarryHolds(f, d, x, ForestOf(d), Leaf(x), [x])
  {
    if d == [] {
      assert [] + [Leaf(x)] == [Leaf(x)];
      assert d + [x] == [x];
    } else {
      TreeOfAppend(d, x);
      AppendIsSpine(TreeOf(d), x);
      NodesForest(f, TreeOf(d));
    }
  }

  lemma CarryStepHolds(f: NodeHash, d: seq<Uint256>, x: Uint256, g: seq<Tree>, b: Tree, c: Tree, out: seq<Uint256>)
    requires Full(b) && Full(c) && Size(b) == Size(c) && CarryHolds(f, d, x, g + [b], c, out)
    ensures CarryHolds(f, d, x, g, Node(b, c), out + [Hash(f, Node(b, c))])
  {
    var h := [Hash(f, Node(b, c))];
    SpineJoin(g, b, c);
    assert g + [b] + [c] == g + [b, c];
    assert (g + [b])[..|g|] == g;
    Assoc(Nodes(f, g), PostOrder(f, b), PostOrder(f, c));
    Assoc(Nodes(f, g), PostOrder(f, b) + PostOrder(f, c), h);
    Assoc(Stored(f, d), out, h);
  }

  lemma UnitStep(total: nat, s: nat, h: nat, p: nat, q: nat)
    requires total == s * p && s == 2 * h + 1 && q == 2 * p
    ensures total - p == h * q
  {
    HalfTimes(s, h, 1, p);
  }

  lemma LargerUnits(g: seq<Tree>, c: Tree)
    requires Full(c) && forall i :: 0 <= i < |g| ==> Full(g[i]) && Size(c) < Size(g[i])
    ensures forall i :: 0 <= i < |g| ==> 2 * Size(c) <= Size(g[i])
  {
    hide Perfect, Multiple;
    FullIsPerfect(c);
    forall i | 0 <= i < |g| ensures 2 * Size(c) <= Size(g[i]) {
      FullIsPerfect(g[i]);
      PerfectOrder(Size(c), Size(g[i]));
    }
  }

  lemma CarryStepFits(g: seq<Tree>, c: Tree, s: nat)
    requires CarryFits(g, c, s) && s % 2 == 1 && |g| > 0 && Size(g[|g| - 1]) == Size(c)
    ensures CarryFits(g[..|g| - 1], Node(g[|g| - 1], c), s / 2)
  {
    var n, p, q := |g| - 1, Size(c), Size(Node(g[|g| - 1], c));
    LargerUnits(g[..n], c);
    UnitStep(Total(g), s, s / 2, p, q);
  }

  /** An odd number of units: the last full subtree is as large as the carried one. */
  lemma CarryStep(f: NodeHash, d: seq<Uint256>, x: Uint256, g: seq<Tree>, c: Tree, s: nat, out: seq<Uint256>)
    requires CarryFits(g, c, s) && CarryHolds(f, d, x, g, c, out) && s % 2 == 1
    ensures |g| > 0
    ensures var n := |g| - 1; var c' := Node(g[n], c);
      CarryFits(g[..n], c', s / 2) && CarryHolds(f, d, x, g[..n], c', out + [Hash(f, c')])
  {
    CarryParity(g, c, s);
    CarryStepFits(g, c, s);
    assert g == g[..|g| - 1] + [g[|g| - 1]];
    CarryStepHolds(f, d, x, g[..|g| - 1], g[|g| - 1], c, out);
  }

  lemma SpineContent(f: NodeHash, g: seq<Tree>, c: Tree, t: Tree)
    requires Forest(t) == g + [c]
    ensures Hashes(f, Forest(t)) == Hashes(f, g) + [Hash(f, c)]
    ensures PostOrder(f, t) == Nodes(f, g) + PostOrder(f, c)
  {
    NodesForest(f, t);
    assert (g + [c])[..|g|] == g;
    assert Hashes(f, g + [c]) == Hashes(f, g) + [Hash(f, c)];
  }

  /** An even number of units: the carried tree is the last full subtree. */
  lemma CarryEnd(f: NodeHash, d: seq<Uint256>, x: Uint256, g: seq<Tree>, c: Tree, s: nat, out: seq<Uint256>)
    requires CarryFits(g, c, s) && CarryHolds(f, d, x, g, c, out) && s % 2 == 0
    ensures Kept(f, d + [x]) == Hashes(f, g) + [Hash(f, c)]
    ensures Stored(f, d + [x]) == Stored(f, d) + out
  {
    CarryParity(g, c, s);
    FallingSpine(g + [c]);
    SpineContent(f, g, c, TreeOf(d + [x]));
  }

  /** The kept hashes, last first, are the audit path of the next leaf. */
  lemma {:induction false} AppendPath(f: NodeHash, t: Tree, x: Uint256)
    requires Shaped(t)
    ensures Size(Append(t, x)) == Size(t) + 1
    ensures Path(f, Size(t), Append(t, x)) == Reversed(Hashes(f, Forest(t)))
  {
    AppendShaped(t, x);
    if Full(t) {
      assert Hashes(f, Forest(t)) == [Hash(f, t)];
      assert Reversed([Hash(f, t)]) == Reversed([]) + [Hash(f, t)];
    } else {
      AppendPath(f, t.right, x);
      assert Hashes(f, Forest(t))[1..] == Hashes(f, Forest(t.right));
    }
  }

  lemma NextLeafPath(f: NodeHash, d: seq<Uint256>, x: Uint256)
    ensures PathOf(f, |d|, d + [x]) == Reversed(Kept(f, d))
  {
    if d != [] {
      TreeOfShaped(d);
      TreeOfAppend(d, x);
      AppendPath(f, TreeOf(d), x);
    }
  }

  // ---------- reading the store ----------

  lemma StoredLength(f: NodeHash, d: seq<Uint256>)
    ensures |Stored(f, d)| == 2 * |d| - CountBit(|d|)
  {
    if d != [] {
      TreeOfShaped(d);
      PostOrderLength(f, TreeOf(d));
    }
  }

  /** The store entries of a tree, seen in a file that starts with the live entries. */
  ghost predicate InFile(f: NodeHash, file: seq<Uint256>, offset: nat, t: Tree)
  {
    Shaped(t) && offset + 2 * Size(t) <= MAX_TREE * 2 && StoredAt(f, file, offset, t)
  }

  lemma PrefixInFile(f: NodeHash, file: seq<Uint256>, d: seq<Uint256>, n: nat)
    requires 0 < n <= |d| && n < MAX_TREE && Stored(f, d) <= file
    ensures InFile(f, file, 0, TreeOf(d[..n])) && Size(TreeOf(d[..n])) == n
  {
    TreeOfShaped(d[..n]);
    StoredPrefix(f, d, n);
  }

  lemma PartsInFile(f: NodeHash, file: seq<Uint256>, offset: nat, t: Tree)
    requires InFile(f, file, offset, t) && t.Node?
    ensures var p := offset + 2 * Size(t.left) - 1;
      && Split(Size(t)) == Size(t.left)
      && InFile(f, file, offset, t.left) && InFile(f, file, p, t.right)
      && 0 < p <= |file| && file[p - 1] == Hash(f, t.left)
  {
    ShapedSplit(t);
    FullIsShaped(t.left);
    StoredParts(f, file, offset, t);
  }

  lemma {:induction false} PositionShift(n: nat, a: nat, b: nat, i: nat)
    requires i < |SubTreePos(n, a)|
    ensures i < |SubTreePos(n, a + b)| && SubTreePos(n, a + b)[i] == SubTreePos(n, a)[i] + b
    decreases n
  {
    if !Perfect(n) && i > 0 {
      PositionShift(n - Split(n), a + 2 * Split(n) - 1, b, i - 1);
    }
  }

  lemma ForestInFile(f: NodeHash, file: seq<Uint256>, offset: nat, t: Tree)
    requires InFile(f, file, offset, t)
    ensures HoldsHashes(file, SubTreePos(Size(t), offset), Hashes(f, Forest(t)))
    ensures Fold(f, Hashes(f, Forest(t))) == Hash(f, t)
  {
    ForestPositions(f, file, offset, t);
    SpineForest(t);
    FoldSpine(f, Forest(t));
  }

  predicate EntryAt(file: seq<Uint256>, pos: nat, offset: nat, hash: Uint256)
  {
    var q := U32(U32(pos + offset) - 1);
    q < |file| && file[q] == hash
  }

  /** Reads the entries at 1-based positions, each moved by `offset`. */
  method ReadEntries(store: FileHashStore, pos: seq<nat>, offset: nat, ghost want: seq<Uint256>)
    returns (hashes: seq<Uint256>)
    requires |pos| == |want|
    requires forall p :: 0 <= p < |pos| ==> EntryAt(store.file, pos[p], offset, want[p])
    ensures hashes == want
  {
    hashes := [];
    for p := 0 to |pos|
      invariant hashes == want[..p]
    {
      assert EntryAt(store.file, pos[p], offset, want[p]);
      var hash := store.GetHash(U32(U32(pos[p] + offset) - 1));
      hashes := hashes + [hash];
    }
  }

  lemma EntryInFile(file: seq<Uint256>, n: nat, offset: nat, p: nat, want: seq<Uint256>)
    requires offset + 2 * n <= U32_SIZE && p < |SubTreePos(n, 0)|
    requires HoldsHashes(file, SubTreePos(n, offset), want)
    ensures p < |want| && EntryAt(file, SubTreePos(n, 0)[p], offset, want[p])
  {
    PositionShift(n, 0, offset, p);
    PositionBound(n, offset, p);
  }

  lemma EntriesInFile(f: NodeHash, file: seq<Uint256>, n: nat, offset: nat, t: Tree)
    requires InFile(f, file, offset, t) && Size(t) == n
    ensures var pos, want := SubTreePos(n, 0), Hashes(f, Forest(t));
      && |pos| == |want| && Fold(f, want) == Hash(f, t)
      && forall p :: 0 <= p < |pos| ==> EntryAt(file, pos[p], offset, want[p])
  {
    var pos, want := SubTreePos(n, 0), Hashes(f, Forest(t));
    ForestInFile(f, file, offset, t);
    PositionCount(n, 0);
    PositionCount(n, offset);
    forall p | 0 <= p < |pos| ensures EntryAt(file, pos[p], offset, want[p]) {
      EntryInFile(file, n, offset, p, want);
    }
  }

  /** The root of the `n` leaves whose nodes start at `offset`: the roots of its full
      subtrees are read from the store and folded. */
  method RootAt(f: NodeHash, store: FileHashStore, n: nat, offset: nat, ghost t: Tree) returns (root: Uint256)
    requires InFile(f, store.file, offset, t) && Size(t) == n < MAX_TREE
    ensures root == Hash(f, t)
  {
    var pos := GetSubTreePos(n);
    EntriesInFile(f, store.file, n, offset, t);
    var subHashes := ReadEntries(store, pos, offset, Hashes(f, Forest(t)));
    root := HashFold(f, subHashes);
  }

  /** The loop state of the proof builders: what is still to be proved about the
      subtree `t` at `offset`, then the hashes collected so far, last first. */
  ghost predicate Descending(f: NodeHash, file: seq<Uint256>, offset: nat, t: Tree, n: nat)
  {
    InFile(f, file, offset, t) && Size(t) == n < MAX_TREE
  }

  lemma DescendParts(f: NodeHash, file: seq<Uint256>, offset: nat, t: Tree, n: nat)
    requires Descending(f, file, offset, t, n) && n > 1
    ensures t.Node? && Full(t.left)
    ensures var k := Pow2(HighBit(n - 1) - 1); var p := offset + 2 * k - 1;
      && k == Size(t.left) < n && U32(offset + U32(k * 2) - 1) == p
      && Descending(f, file, offset, t.left, k) && Descending(f, file, p, t.right, n - k)
      && 0 < p <= |file| && p < U32_SIZE && file[p - 1] == Hash(f, t.left)
  {
    PartsInFile(f, file, offset, t);
    SplitIsShift(n);
  }

  /** One hash collected on the way down. */
  lemma Collect(rest: seq<Uint256>, x: Uint256, hashes: seq<Uint256>)
    ensures rest + [x] + Reversed(hashes) == rest + Reversed(hashes + [x])
  {
    ReversedLast(hashes, x);
    Assoc(rest, [x], Reversed(hashes));
  }

  lemma PathStart(f: NodeHash, m: nat, t: Tree)
    requires m < Size(t)
    ensures Path(f, m, t) + Reversed([]) == Path(f, m, t)
  {
  }

  lemma ProofStart(f: NodeHash, m: nat, t: Tree)
    requires 0 < m <= Size(t)
    ensures MerkleSpec.Subproof(f, m, t, true) + Reversed([]) == MerkleSpec.Subproof(f, m, t, true)
  {
  }

  lemma ProofOnLeft(f: NodeHash, m: nat, t: Tree, b: bool, hashes: seq<Uint256>)
    requires t.Node? && 0 < m <= Size(t.left)
    ensures MerkleSpec.Subproof(f, m, t, b) + Reversed(hashes)
         == MerkleSpec.Subproof(f, m, t.left, b) + Reversed(hashes + [Hash(f, t.right)])
  {
    Collect(MerkleSpec.Subproof(f, m, t.left, b), Hash(f, t.right), hashes);
  }

  lemma ProofOnRight(f: NodeHash, m: nat, t: Tree, b: bool, hashes: seq<Uint256>)
    requires t.Node? && Size(t.left) < m < Size(t)
    ensures MerkleSpec.Subproof(f, m, t, b) + Reversed(hashes)
         == MerkleSpec.Subproof(f, m - Size(t.left), t.right, false) + Reversed(hashes + [Hash(f, t.left)])
  {
    Collect(MerkleSpec.Subproof(f, m - Size(t.left), t.right, false), Hash(f, t.left), hashes);
  }

  lemma ProofEnd(f: NodeHash, t: Tree, b: bool, hashes: seq<Uint256>)
    ensures MerkleSpec.Subproof(f, Size(t), t, b) + Reversed(hashes)
         == Reversed(if b then hashes else hashes + [Hash(f, t)])
  {
    ReversedLast(hashes, Hash(f, t));
    assert [] + Reversed(hashes) == Reversed(hashes);
  }

  lemma PathOnLeft(f: NodeHash, m: nat, t: Tree, hashes: seq<Uint256>)
    requires t.Node? && m < Size(t.left)
    ensures Path(f, m, t) + Reversed(hashes) == Path(f, m, t.left) + Reversed(hashes + [Hash(f, t.right)])
  {
    Collect(Path(f, m, t.left), Hash(f, t.right), hashes);
  }

  lemma PathOnRight(f: NodeHash, m: nat, t: Tree, hashes: seq<Uint256>)
    requires t.Node? && Size(t.left) <= m < Size(t)
    ensures Path(f, m, t) + Reversed(hashes)
         == Path(f, m - Size(t.left), t.right) + Reversed(hashes + [Hash(f, t.left)])
  {
    Collect(Path(f, m - Size(t.left), t.right), Hash(f, t.left), hashes);
  }

  lemma PathDone(f: NodeHash, t: Tree, hashes: seq<Uint256>)
    requires Size(t) == 1
    ensures Path(f, 0, t) + Reversed(hashes) == Reversed(hashes)
  {
    assert t.Leaf?;
    assert [] + Reversed(hashes) == Reversed(hashes);
  }

  method BuildPath(f: NodeHash, store: FileHashStore, index: nat, size: nat, ghost whole: Tree)
    returns (path: seq<Uint256>)
    requires index < size && Descending(f, store.file, 0, whole, size)
    ensures path == Path(f, index, whole)
  {
    hide InFile, Path, Hash, Reversed;
    PathStart(f, index, whole);
    var m: nat, n: nat, offset: nat := index, size, 0;
    var hashes := [];
    ghost var t := whole;
    while n != 1
      invariant m < n && Descending(f, store.file, offset, t, n)
      invariant Path(f, m, t) + Reversed(hashes) == Path(f, index, whole)
      decreases n
    {
      HighBitRange(n - 1);
      var k := Pow2(HighBit(n - 1) - 1);
      DescendParts(f, store.file, offset, t, n);
      var next := U32(offset + U32(k * 2) - 1);
      if m < k {
        var right := RootAt(f, store, n - k, next, t.right);
        PathOnLeft(f, m, t, hashes);
        hashes := hashes + [right];
        n, t := k, t.left;
      } else {
        offset := next;
        var left := store.GetHash(offset - 1);
        PathOnRight(f, m, t, hashes);
        hashes := hashes + [left];
        m, n, t := m - k, n - k, t.right;
      }
    }
    PathDone(f, t, hashes);
    path := Reverse(hashes);
  }

  lemma FullPositionInFile(f: NodeHash, file: seq<Uint256>, offset: nat, t: Tree, n: nat)
    requires Descending(f, file, offset, t, n) && Full(t)
    ensures SubTreePos(n, 0) == [2 * n - 1]
    ensures offset + 2 * n - 1 <= |file| && file[offset + 2 * n - 2] == Hash(f, t)
  {
    FullIsPerfect(t);
    PostOrderFull(f, t);
    assert file[offset..][2 * n - 2] == Hash(f, t);
  }

  /** The node read when the descent has ended; that there is only one position, which
      the program checks with a panic, is proved here. */
  method LastNode(f: NodeHash, store: FileHashStore, n: nat, offset: nat, ghost t: Tree) returns (hash: Uint256)
    requires Descending(f, store.file, offset, t, n) && Full(t)
    ensures hash == Hash(f, t)
  {
    var pos := GetSubTreePos(n);
    FullPositionInFile(f, store.file, offset, t, n);
    assert |pos| == 1;
    hash := store.GetHash(U32(U32(pos[0] + offset) - 1));
  }

  method BuildSubproof(f: NodeHash, store: FileHashStore, oldSize: nat, size: nat, ghost whole: Tree)
    returns (proof: seq<Uint256>)
    requires 0 < oldSize <= size && Descending(f, store.file, 0, whole, size)
    ensures proof == MerkleSpec.Subproof(f, oldSize, whole, true)
  {
    hide InFile, MerkleSpec.Subproof, Hash, Reversed, Pow2, HighBit;
    ProofStart(f, oldSize, whole);
    var m: nat, n: nat, offset: nat, b := oldSize, size, 0, true;
    var hashes := [];
    ghost var t := whole;
    while m < n
      invariant 0 < m <= n && Descending(f, store.file, offset, t, n)
      invariant b || m < n || Full(t)
      invariant MerkleSpec.Subproof(f, m, t, b) + Reversed(hashes) == MerkleSpec.Subproof(f, oldSize, whole, true)
      decreases n
    {
      HighBitRange(n - 1);
      var k := Pow2(HighBit(n - 1) - 1);
      DescendParts(f, store.file, offset, t, n);
      var next := U32(offset + U32(k * 2) - 1);
      if m <= k {
        var right := RootAt(f, store, n - k, next, t.right);
        ProofOnLeft(f, m, t, b, hashes);
        hashes := hashes + [right];
        n, t := k, t.left;
      } else {
        offset := next;
        var left := store.GetHash(offset - 1);
        ProofOnRight(f, m, t, b, hashes);
        hashes := hashes + [left];
        m, n, t, b := m - k, n - k, t.right, false;
      }
    }
    ProofEnd(f, t, b, hashes);
    if !b {
      var last := LastNode(f, store, n, offset, t);
      hashes := hashes + [last];
    }
    proof := Reverse(hashes);
  }

  lemma LowBitOfOdd(s: nat)
    ensures s % 2 == 1 ==> LowBit(s + 1) == 1 + LowBit(s / 2 + 1)
    ensures s % 2 == 0 ==> LowBit(s + 1) == 1
  {
    var h := s / 2;
    if s % 2 == 1 {
      assert s + 1 == 2 * (h + 1);
      LowBitEven(h + 1);
    } else if s > 0 {
      assert s + 1 == 2 * h + 1;
      LowBitEven(h);
    } else {
      assert LowestSetBit(1) == 1 && HighBit(1) == 1 + HighBit(0);
    }
  }

  /** The loop of `AppendHash`: while the size is odd, the last kept hash and the new
      one become one node. */
  method Carry(f: NodeHash, treeSize: nat, hashes: seq<Uint256>, newLeaf: Uint256, ghost d: seq<Uint256>)
    returns (size: nat, leaf: Uint256, storeHashes: seq<Uint256>, minTreeH: nat)
    requires treeSize == |d| && hashes == Kept(f, d)
    ensures size <= |hashes| && hashes[..size] + [leaf] == Kept(f, d + [newLeaf])
    ensures Stored(f, d) + storeHashes == Stored(f, d + [newLeaf])
    ensures minTreeH == LowBit(treeSize + 1)
  {
    hide CarryFits, CarryHolds, MerkleSpec.Stored, LowBit;
    size, leaf, storeHashes, minTreeH := |hashes|, newLeaf, [newLeaf], 1;
    var s := treeSize;
    ghost var g, c := ForestOf(d), Leaf(newLeaf);
    CarryFitsAtStart(d, newLeaf);
    CarryHoldsAtStart(f, d, newLeaf);
    while s % 2 == 1
      invariant CarryFits(g, c, s) && CarryHolds(f, d, newLeaf, g, c, storeHashes)
      invariant size == |g| <= |hashes| && hashes[..size] == Hashes(f, g) && leaf == Hash(f, c)
      invariant minTreeH + LowBit(s + 1) == 1 + LowBit(treeSize + 1)
      decreases s
    {
      CarryStep(f, d, newLeaf, g, c, s, storeHashes);
      LowBitOfOdd(s);
      assert hashes[size - 1] == hashes[..size][size - 1];
      minTreeH := minTreeH + 1;
      leaf := f(hashes[size - 1], leaf);
      storeHashes := storeHashes + [leaf];
      c, g := Node(g[size - 1], c), g[..size - 1];
      size := size - 1;
      s := s / 2;
      assert hashes[..size] == Hashes(f, g);
    }
    CarryEnd(f, d, newLeaf, g, c, s, storeHashes);
    LowBitOfOdd(s);
  }

  class CompactMerkleTree {
    const f: NodeHash
    const hashEmpty: Uint256
    var minTreeH: nat
    var hashes: seq<Uint256>
    var store: FileHashStore?
    var rootHash: Uint256
    var treeSize: nat
    ghost var leaves: seq<Uint256>

    ghost predicate Valid()
      reads this, store
    {
      && treeSize == |leaves| < U32_SIZE
      && hashes == Kept(f, leaves)
      && minTreeH == LowBit(treeSize)
      && (rootHash == EMPTY_HASH || rootHash == LogRoot(f, hashEmpty, leaves))
      && (store != null ==> store.Valid() && store.Live() == Stored(f, leaves))
    }

    /** `NewTree` over the kept hashes of a log of leaves `d`. The count of hashes is
        checked by the program, what they are is up to the caller. */
    constructor (f: NodeHash, hashEmpty: Uint256, treeSize: nat, hashes: seq<Uint256>, store: FileHashStore?,
                 ghost d: seq<Uint256>)
      requires |d| == treeSize < U32_SIZE && hashes == Kept(f, d)
      requires store != null ==> store.Valid() && store.Live() == Stored(f, d)
      ensures Valid() && leaves == d && this.store == store && this.f == f && this.hashEmpty == hashEmpty
    {
      this.f, this.hashEmpty := f, hashEmpty;
      this.treeSize, this.hashes, this.store := treeSize, hashes, store;
      minTreeH := LowBit(treeSize);
      rootHash := EMPTY_HASH;
      leaves := d;
    }

    method Root() returns (root: Uint256)
      requires Valid()
      modifies this`rootHash
      ensures Valid() && root == LogRoot(f, hashEmpty, leaves)
      ensures root == if treeSize == 0 then hashEmpty else MerkleSpec.Root(f, leaves)
    {
      if rootHash == EMPTY_HASH {
        KeptCount(f, leaves);
        CountBitPositive(treeSize);
        if |hashes| != 0 {
          KeptFold(f, leaves);
          rootHash := HashFold(f, hashes);
        } else {
          rootHash := hashEmpty;
        }
      }
      return rootHash;
    }

    method GetRootWithNewLeaf(newLeaf: Uint256) returns (root: Uint256)
      requires Valid()
      ensures root == MerkleSpec.Root(f, leaves + [newLeaf])
    {
      KeptFoldWithLeaf(f, leaves, newLeaf);
      root := HashFold(f, hashes + [newLeaf]);
    }

    method AppendHash(newLeaf: Uint256) returns (auditPath: seq<Uint256>)
      requires Valid() && treeSize + 1 < U32_SIZE
      modifies this, store
      ensures Valid() && leaves == old(leaves) + [newLeaf] && store == old(store)
      ensures auditPath == PathOf(f, old(treeSize), leaves)
    {
      hide Kept, LogRoot, PathOf, LowBit, MerkleSpec.Stored;
      auditPath := Reverse(hashes);
      NextLeafPath(f, leaves, newLeaf);
      var size, leaf, storeHashes, height := Carry(f, treeSize, hashes, newLeaf, leaves);
      if store != null {
        store.Append(storeHashes);
      }
      minTreeH := height;
      treeSize := U32(treeSize + 1);
      hashes := hashes[..size] + [leaf];
      rootHash := EMPTY_HASH;
      leaves := leaves + [newLeaf];
    }
  
    /** `GetRootWithNewLeaves`: appended to a copy that has no store. */
    method GetRootWithNewLeaves(newLeaves: seq<Uint256>) returns (root: Uint256)
      requires Valid() && treeSize + |newLeaves| < U32_SIZE
      ensures root == LogRoot(f, hashEmpty, leaves + newLeaves)
    {
      hide Kept, LogRoot, PathOf, LowBit, MerkleSpec.Stored;
      var tree := new CompactMerkleTree(f, hashEmpty, treeSize, hashes, null, leaves);
      for i := 0 to |newLeaves|
        invariant fresh(tree) && tree.Valid() && tree.store == null
        invariant tree.f == f && tree.hashEmpty == hashEmpty && tree.leaves == leaves + newLeaves[..i]
      {
        var path := tree.AppendHash(newLeaves[i]);
        assert leaves + newLeaves[..i] + [newLeaves[i]] == leaves + newLeaves[..i + 1];
      }
      assert newLeaves[..|newLeaves|] == newLeaves;
      root := tree.Root();
    }

    /** `NewFileHashStore` and `NewTree` over a file that was written for a log `d`, at a
        possibly smaller size: what follows the first `size` leaves is stale. */
    static method Reopen(f: NodeHash, hashEmpty: Uint256, file: seq<Uint256>, size: nat, hashes: seq<Uint256>,
                         ghost d: seq<Uint256>) returns (tree: CompactMerkleTree)
      requires size <= |d| && size < U32_SIZE && Stored(f, d) <= file && hashes == Kept(f, d[..size])
      ensures tree.Valid() && tree.leaves == d[..size] && tree.f == f && tree.store != null
      ensures fresh(tree) && fresh(tree.store) && tree.store.file == file
    {
      StoredPrefix(f, d, size);
      StoredLength(f, d[..size]);
      var handle := FileHashStore.Open(file, size);
      assert file[..2 * size - CountBit(size)] == Stored(f, d[..size]);
      tree := new CompactMerkleTree(f, hashEmpty, size, hashes, handle.store, d[..size]);
    }

    /** The root of the first `n` leaves, from the store alone. */
    method MerkleRoot(n: nat) returns (root: Uint256)
      requires Valid() && store != null && 0 < n <= treeSize < MAX_TREE
      ensures root == MerkleSpec.Root(f, leaves[..n])
    {
      PrefixInFile(f, store.file, leaves, n);
      root := RootAt(f, store, n, 0, TreeOf(leaves[..n]));
    }

    /** The proof is the one of RFC 6962, so the verifier accepts it. */
    method ConsistencyProof(m: nat, n: nat) returns (proof: Option<seq<Uint256>>)
      requires Valid() && 0 < m && treeSize < MAX_TREE
      ensures proof.None? <==> m > n || treeSize < n || store == null
      ensures proof.Some? ==>
        && proof.value == ProofOf(f, m, leaves[..n])
        && Consistency(f, m, n, MerkleSpec.Root(f, leaves[..m]), MerkleSpec.Root(f, leaves[..n]), proof.value).Ok?
    {
      if m > n || treeSize < n || store == null { return None; }
      PrefixInFile(f, store.file, leaves, n);
      ConsistencyComplete(f, m, leaves[..n]);
      assert leaves[..n][..m] == leaves[..m];
      var hashes := BuildSubproof(f, store, m, n, TreeOf(leaves[..n]));
      return Some(hashes);
    }

    method InclusionProof(m: nat, n: nat) returns (path: Option<seq<Uint256>>)
      requires Valid() && treeSize < MAX_TREE
      ensures path.None? <==> m >= n || treeSize < n || store == null
      ensures path.Some? ==>
        && path.value == PathOf(f, m, leaves[..n])
        && Included(f, leaves[m], m, path.value, MerkleSpec.Root(f, leaves[..n]), n)
    {
      if m >= n || treeSize < n || store == null { return None; }
      PrefixInFile(f, store.file, leaves, n);
      InclusionComplete(f, m, leaves[..n]);
      var hashes := BuildPath(f, store, m, n, TreeOf(leaves[..n]));
      return Some(hashes);
    }
  }
}
