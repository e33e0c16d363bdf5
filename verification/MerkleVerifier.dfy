/** `MerkleVerifier` of merkle/merkle_tree.go: the bottom-up checks of audit paths
    and consistency proofs, and why they decide the top-down RFC 6962 claims. */
module MerkleVerifier {
  import opened Common
  import opened MerkleSpec
  import opened MerkleLevels

  datatype ProofError =
    | WrongParams | TooShort | TooLong | RootMismatch
    | OlderTreeBigger | WrongProofLength | NewRootMismatch | OldRootMismatch

  datatype Checked<+T> = Ok(value: T) | Err(error: ProofError)

  // ---------- audit paths ----------

  /** The walk of `calculate_root_hash_from_audit_path` on what is left of the path. */
  function Climb(f: NodeHash, h: Uint256, index: nat, last: nat, path: seq<Uint256>): Checked<Uint256>
    decreases last
  {
    if last == 0 then if path == [] then Ok(h) else Err(TooLong)
    else if path == [] then Err(TooShort)
    else if index % 2 == 1 then Climb(f, f(path[0], h), index / 2, last / 2, path[1..])
    else if index < last then Climb(f, f(h, path[0]), index / 2, last / 2, path[1..])
    else Climb(f, h, index / 2, last / 2, path)
  }

  method CalculateRootHash(f: NodeHash, leafHash: Uint256, index: nat, path: seq<Uint256>, treeSize: nat)
    returns (r: Checked<Uint256>)
    requires index < treeSize
    ensures r == Climb(f, leafHash, index, treeSize - 1, path)
  {
    var hash, pos := leafHash, 0;
    var node: nat, last: nat := index, treeSize - 1;
    while last > 0
      invariant 0 <= pos <= |path|
      invariant Climb(f, hash, node, last, path[pos..]) == Climb(f, leafHash, index, treeSize - 1, path)
    {
      if pos >= |path| { return Err(TooShort); }
      if node % 2 == 1 {
        hash := f(path[pos], hash);
        pos := pos + 1;
      } else if node < last {
        hash := f(hash, path[pos]);
        pos := pos + 1;
      }
      node, last := node / 2, last / 2;
    }
    if pos < |path| { return Err(TooLong); }
    return Ok(hash);
  }

  predicate Included(f: NodeHash, leafHash: Uint256, index: nat, path: seq<Uint256>, root: Uint256, treeSize: nat)
  {
    index < treeSize && Climb(f, leafHash, index, treeSize - 1, path) == Ok(root)
  }

  /** How many siblings a node meets on its way to the root. */
  function Siblings(index: nat, last: nat): (n: nat)
    ensures last > 0 && index <= last ==> n > 0
    decreases last
  {
    if last == 0 then 0 else (if index % 2 == 1 || index < last then 1 else 0) + Siblings(index / 2, last / 2)
  }

  /** A walk fails exactly for a path of the wrong length. */
  lemma {:induction false} ClimbErrors(f: NodeHash, h: Uint256, index: nat, last: nat, path: seq<Uint256>)
    requires index <= last
    ensures var r := Climb(f, h, index, last, path);
      && (r == Err(TooShort) <==> |path| < Siblings(index, last))
      && (r == Err(TooLong) <==> |path| > Siblings(index, last))
      && (r.Ok? <==> |path| == Siblings(index, last))
    decreases last
  {
    if last > 0 && path != [] {
      if index % 2 == 1 {
        ClimbErrors(f, f(path[0], h), index / 2, last / 2, path[1..]);
      } else if index < last {
        ClimbErrors(f, f(h, path[0]), index / 2, last / 2, path[1..]);
      } else {
        ClimbErrors(f, h, index / 2, last / 2, path);
      }
    }
  }

  method VerifyLeafHashInclusion(f: NodeHash, leafHash: Uint256, index: nat, path: seq<Uint256>,
                                 root: Uint256, treeSize: nat)
    returns (r: Checked<()>)
    ensures r.Ok? <==> Included(f, leafHash, index, path, root, treeSize)
    ensures r == Err(WrongParams) <==> treeSize <= index
    ensures r == Err(TooShort) <==> index < treeSize && |path| < Siblings(index, treeSize - 1)
    ensures r == Err(TooLong) <==> index < treeSize && |path| > Siblings(index, treeSize - 1)
    ensures r.Ok? || r.error in {WrongParams, TooShort, TooLong, RootMismatch}
  {
    if treeSize <= index { return Err(WrongParams); }
    var calculated := CalculateRootHash(f, leafHash, index, path, treeSize);
    ClimbErrors(f, leafHash, index, treeSize - 1, path);
    if calculated.Err? { return Err(calculated.error); }
    if calculated.value != root { return Err(RootMismatch); }
    return Ok(());
  }

  /** Node `m` of a level, its path and the root, seen from the level above. */
  lemma LevelStep(f: NodeHash, m: nat, d: seq<Uint256>)
    requires m < |d| && |d| > 1
    ensures var j, u := m / 2, Up(f, d);
      && j < |u| < |d| && |u| - 1 == (|d| - 1) / 2
      && LevelRoot(f, d) == LevelRoot(f, u)
      && u[j] == (if m % 2 == 1 then f(d[m - 1], d[m]) else if m + 1 < |d| then f(d[m], d[m + 1]) else d[m])
      && LevelPath(f, m, d) == Sibling(m, m % 2 == 1, d) + LevelPath(f, j, u)
  {
    var j := m / 2;
    UpAt(f, d, j);
    if m % 2 == 1 {
      assert m == 2 * j + 1;
    } else {
      assert m == 2 * j;
    }
  }

  lemma {:induction false} ClimbPath(f: NodeHash, m: nat, d: seq<Uint256>)
    requires m < |d|
    ensures |d| > 1 ==> LevelPath(f, m, d) != []
    ensures Climb(f, d[m], m, |d| - 1, LevelPath(f, m, d)) == Ok(LevelRoot(f, d))
    decreases |d|
  {
    if |d| > 1 {
      var j, u, path := m / 2, Up(f, d), LevelPath(f, m, d);
      LevelStep(f, m, d);
      ClimbPath(f, j, u);
      if m % 2 == 1 || m + 1 < |d| {
        assert path[1..] == LevelPath(f, j, u);
      } else {
        assert path == LevelPath(f, j, u);
      }
    }
  }

  /** Completeness: the RFC audit path of leaf `m` is accepted. */
  lemma InclusionComplete(f: NodeHash, m: nat, d: seq<Uint256>)
    requires m < |d|
    ensures Included(f, d[m], m, PathOf(f, m, d), Root(f, d), |d|)
  {
    LevelPathIsPath(f, m, d);
    LevelRootIsRoot(f, d);
    ClimbPath(f, m, d);
  }

  lemma PathHasLength(f: NodeHash, m: nat, d: seq<Uint256>)
    requires m < |d|
    ensures |PathOf(f, m, d)| == |LevelPath(f, m, d)| == Siblings(m, |d| - 1)
  {
    LevelPathIsPath(f, m, d);
    ClimbPath(f, m, d);
    ClimbErrors(f, d[m], m, |d| - 1, LevelPath(f, m, d));
  }

  /** The inputs that the walk hashes. */
  function Walked(f: NodeHash, h: Uint256, index: nat, last: nat, path: seq<Uint256>): set<Pair>
    decreases last
  {
    if last == 0 || path == [] then {}
    else if index % 2 == 1 then {(path[0], h)} + Walked(f, f(path[0], h), index / 2, last / 2, path[1..])
    else if index < last then {(h, path[0])} + Walked(f, f(h, path[0]), index / 2, last / 2, path[1..])
    else Walked(f, h, index / 2, last / 2, path)
  }

  /** A collision between what a walk hashes and what the levels of a list hash. */
  predicate Located(f: NodeHash, c: (Pair, Pair), walked: set<Pair>, d: seq<Uint256>)
  {
    Collides(f, c) && c.0 in walked && c.1 in LevelInputs(f, d)
  }

  lemma OneSibling(m: nat, d: seq<Uint256>)
    requires m < |d|
    ensures Sibling(m, m % 2 == 1, d) ==
      if m % 2 == 1 then [d[m - 1]] else if m + 1 < |d| then [d[m + 1]] else []
  {
  }

  /** Soundness: a path accepted for the true root, but with another leaf or other
      siblings than the true ones, yields an input of the walk that collides with an
      input of the tree. */
  lemma {:induction false} ClimbCollision(f: NodeHash, h: Uint256, m: nat, d: seq<Uint256>, path: seq<Uint256>)
    returns (c: (Pair, Pair))
    requires m < |d|
    requires Climb(f, h, m, |d| - 1, path) == Ok(LevelRoot(f, d))
    requires h != d[m] || path != LevelPath(f, m, d)
    ensures Located(f, c, Walked(f, h, m, |d| - 1, path), d)
    decreases |d|
  {
    hide LevelInputs, Up, Sibling;
    assert |d| > 1;
    var u, j := Up(f, d), m / 2;
    LevelStep(f, m, d);
    InputAt(f, m, j, d);
    hide LevelRoot, LevelPath;
    var rest := LevelPath(f, j, u);
    OneSibling(m, d);
    if m % 2 == 1 {
      assert path == [path[0]] + path[1..];
      if f(path[0], h) == u[j] && path[1..] == rest {
        c := ((path[0], h), (d[m - 1], d[m]));
      } else {
        c := ClimbCollision(f, f(path[0], h), j, u, path[1..]);
      }
    } else if m < |d| - 1 {
      assert path == [path[0]] + path[1..];
      if f(h, path[0]) == u[j] && path[1..] == rest {
        c := ((h, path[0]), (d[m], d[m + 1]));
      } else {
        c := ClimbCollision(f, f(h, path[0]), j, u, path[1..]);
      }
    } else {
      assert [] + rest == rest;
      c := ClimbCollision(f, h, j, u, path);
    }
  }

  // ---------- consistency proofs ----------

  /** What `VerifyConsistency` has computed when both indices have reached the root. */
  datatype Walk = Walk(oldHash: Uint256, newHash: Uint256, rest: seq<Uint256>)

  /** The parallel walk: a left sibling is in both trees, a right one only in the new. */
  function ClimbBoth(f: NodeHash, oldHash: Uint256, newHash: Uint256, node: nat, last: nat, path: seq<Uint256>)
    : Checked<Walk>
    requires node <= last
    decreases last
  {
    if last == 0 then Ok(Walk(oldHash, newHash, path))
    else if node % 2 == 0 && node == last then ClimbBoth(f, oldHash, newHash, node / 2, last / 2, path)
    else if path == [] then Err(WrongProofLength)
    else if node % 2 == 1 then
      ClimbBoth(f, f(path[0], oldHash), f(path[0], newHash), node / 2, last / 2, path[1..])
    else
      ClimbBoth(f, oldHash, f(newHash, path[0]), node / 2, last / 2, path[1..])
  }

  /** Levels on which the last old node is a right child are the same in both trees. */
  function Strip(node: nat, last: nat): (nat, nat)
    decreases node
  {
    if node % 2 == 1 then Strip(node / 2, last / 2) else (node, last)
  }

  function Conclude(w: Checked<Walk>, oldRoot: Uint256, newRoot: Uint256): Checked<()>
  {
    if w.Err? then Err(w.error)
    else if w.value.newHash != newRoot then Err(NewRootMismatch)
    else if w.value.oldHash != oldRoot then Err(OldRootMismatch)
    else if w.value.rest != [] then Err(TooLong)
    else Ok(())
  }

  lemma {:induction false} StripOrder(node: nat, last: nat)
    requires node <= last
    ensures Strip(node, last).0 <= Strip(node, last).1
    ensures Strip(node, last).0 % 2 == 0
    ensures node < last ==> Strip(node, last).0 < Strip(node, last).1
    decreases node
  {
    if node % 2 == 1 {
      assert node < last ==> node / 2 < last / 2;
      StripOrder(node / 2, last / 2);
    }
  }

  function Consistency(f: NodeHash, oldSize: nat, newSize: nat, oldRoot: Uint256, newRoot: Uint256,
                       proof: seq<Uint256>): Checked<()>
  {
    if oldSize > newSize then Err(OlderTreeBigger)
    else if oldRoot == newRoot || oldSize == 0 then Ok(())
    else if proof == [] then Err(WrongProofLength)
    else
      StripOrder(oldSize - 1, newSize - 1);
      var (node, last) := Strip(oldSize - 1, newSize - 1);
      if node != 0 then Conclude(ClimbBoth(f, proof[0], proof[0], node, last, proof[1..]), oldRoot, newRoot)
      else Conclude(ClimbBoth(f, oldRoot, oldRoot, node, last, proof), oldRoot, newRoot)
  }

  /** The parallel walk fails exactly for a path that is too short, and uses no more of it. */
  lemma {:induction false} WalkLength(f: NodeHash, oldHash: Uint256, newHash: Uint256, node: nat, last: nat,
                                      path: seq<Uint256>)
    requires node <= last
    ensures var w, n := ClimbBoth(f, oldHash, newHash, node, last, path), Siblings(node, last);
      if |path| < n then w == Err(WrongProofLength) else w.Ok? && w.value.rest == path[n..]
    decreases last
  {
    if last > 0 {
      if node % 2 == 0 && node == last {
        WalkLength(f, oldHash, newHash, node / 2, last / 2, path);
      } else if path != [] {
        if node % 2 == 1 {
          WalkLength(f, f(path[0], oldHash), f(path[0], newHash), node / 2, last / 2, path[1..]);
        } else {
          WalkLength(f, oldHash, f(newHash, path[0]), node / 2, last / 2, path[1..]);
        }
      }
    }
  }

  /** How many hashes a consistency proof has: the siblings of the last old node that is in
      the new tree too, and that node unless it is the old root. At least one is asked for. */
  function ProofLength(oldSize: nat, newSize: nat): (n: nat)
    requires 0 < oldSize <= newSize
    ensures n > 0
  {
    StripOrder(oldSize - 1, newSize - 1);
    var (node, last) := Strip(oldSize - 1, newSize - 1);
    if last == 0 then 1 else (if node != 0 then 1 else 0) + Siblings(node, last)
  }

  /** Where the old tree is the new one there is nothing to walk. */
  lemma SameHeight(f: NodeHash, h: Uint256, last: nat, path: seq<Uint256>)
    ensures last == 0 ==> ClimbBoth(f, h, h, 0, last, path) == Ok(Walk(h, h, path)) && Siblings(0, last) == 0
  {
  }

  /** What the sizes and the roots alone decide, for all proofs, and when a proof has the wrong
      length. */
  lemma ConsistencyTells(f: NodeHash, oldSize: nat, newSize: nat, oldRoot: Uint256, newRoot: Uint256,
                         proof: seq<Uint256>)
    ensures var r := Consistency(f, oldSize, newSize, oldRoot, newRoot, proof);
      && (r == Err(OlderTreeBigger) <==> oldSize > newSize)
      && (oldSize <= newSize && (oldSize == 0 || oldRoot == newRoot) ==> r.Ok?)
      && (0 < oldSize <= newSize && oldRoot != newRoot ==>
            && (r == Err(WrongProofLength) <==> |proof| < ProofLength(oldSize, newSize))
            && (r == Err(TooLong) ==> |proof| > ProofLength(oldSize, newSize))
            && (r.Ok? ==> |proof| == ProofLength(oldSize, newSize)))
  {
    if 0 < oldSize <= newSize && oldRoot != newRoot && proof != [] {
      hide ClimbBoth, Siblings;
      StripOrder(oldSize - 1, newSize - 1);
      var (node, last) := Strip(oldSize - 1, newSize - 1);
      if node != 0 {
        WalkLength(f, proof[0], proof[0], node, last, proof[1..]);
      } else {
        WalkLength(f, oldRoot, oldRoot, node, last, proof);
        SameHeight(f, oldRoot, last, proof);
      }
    }
  }

  /** The two loops of `VerifyConsistency` that hash. */
  method WalkBoth(f: NodeHash, oldStart: Uint256, newStart: Uint256, node0: nat, last0: nat, path: seq<Uint256>)
    returns (w: Checked<Walk>)
    requires node0 <= last0
    ensures w == ClimbBoth(f, oldStart, newStart, node0, last0, path)
  {
    var oldHash, newHash, pos := oldStart, newStart, 0;
    var node, last := node0, last0;
    while node != 0
      invariant 0 <= pos <= |path| && node <= last
      invariant ClimbBoth(f, oldHash, newHash, node, last, path[pos..])
             == ClimbBoth(f, oldStart, newStart, node0, last0, path)
      decreases node
    {
      if node % 2 == 1 {
        if pos >= |path| { return Err(WrongProofLength); }
        oldHash, newHash, pos := f(path[pos], oldHash), f(path[pos], newHash), pos + 1;
      } else if node < last {
        if pos >= |path| { return Err(WrongProofLength); }
        newHash, pos := f(newHash, path[pos]), pos + 1;
      }
      node, last := node / 2, last / 2;
    }
    while last != 0
      invariant 0 <= pos <= |path|
      invariant ClimbBoth(f, oldHash, newHash, 0, last, path[pos..])
             == ClimbBoth(f, oldStart, newStart, node0, last0, path)
      decreases last
    {
      if pos >= |path| { return Err(WrongProofLength); }
      newHash, pos := f(newHash, path[pos]), pos + 1;
      last := last / 2;
    }
    w := Ok(Walk(oldHash, newHash, path[pos..]));
  }

  method VerifyConsistency(f: NodeHash, oldSize: nat, newSize: nat, oldRoot: Uint256, newRoot: Uint256,
                           proof: seq<Uint256>)
    returns (r: Checked<()>)
    ensures r == Consistency(f, oldSize, newSize, oldRoot, newRoot, proof)
    ensures r == Err(OlderTreeBigger) <==> oldSize > newSize
    ensures oldSize <= newSize && (oldSize == 0 || oldRoot == newRoot) ==> r.Ok?
    ensures 0 < oldSize <= newSize && oldRoot != newRoot ==>
      (r == Err(WrongProofLength) <==> |proof| < ProofLength(oldSize, newSize))
  {
    hide ProofLength, Siblings, ClimbBoth;
    ConsistencyTells(f, oldSize, newSize, oldRoot, newRoot, proof);
    if oldSize > newSize { return Err(OlderTreeBigger); }
    if oldRoot == newRoot { return Ok(()); }
    if oldSize == 0 { return Ok(()); }
    var node: nat, last: nat := oldSize - 1, newSize - 1;
    StripOrder(node, last);
    while node % 2 == 1
      invariant node <= last && Strip(node, last) == Strip(oldSize - 1, newSize - 1)
      decreases node
    {
      node, last := node / 2, last / 2;
    }
    if |proof| == 0 { return Err(WrongProofLength); }
    var walk;
    if node != 0 {
      walk := WalkBoth(f, proof[0], proof[0], node, last, proof[1..]);
    } else {
      walk := WalkBoth(f, oldRoot, oldRoot, node, last, proof);
    }
    if walk.Err? { return Err(walk.error); }
    if walk.value.newHash != newRoot { return Err(NewRootMismatch); }
    if walk.value.oldHash != oldRoot { return Err(OldRootMismatch); }
    if walk.value.rest != [] { return Err(TooLong); }
    return Ok(());
  }

  /** With the true siblings both roots come out of the parallel walk: `e` is the old
      list, which agrees with the new list `d` up to its last entry. */
  ghost predicate Agree(e: seq<Uint256>, d: seq<Uint256>)
  {
    0 < |e| <= |d| && e[..|e| - 1] == d[..|e| - 1]
  }

  lemma {:induction false} UpAgrees(f: NodeHash, e: seq<Uint256>, d: seq<Uint256>)
    requires Agree(e, d)
    ensures Agree(Up(f, e), Up(f, d))
  {
    if |e| > 2 {
      assert e[2..][..|e| - 3] == e[..|e| - 1][2..] == d[..|e| - 1][2..] == d[2..][..|e| - 3];
      UpAgrees(f, e[2..], d[2..]);
    }
  }

  lemma TrueWalkTop(f: NodeHash, e: seq<Uint256>, d: seq<Uint256>)
    requires |e| == 1 && |d| == 1
    ensures ClimbBoth(f, e[0], d[0], 0, 0, LevelPath(f, 0, d)) == Ok(Walk(LevelRoot(f, e), LevelRoot(f, d), []))
  {
  }

  /** The last node of a level, one level up. */
  lemma LastAbove(f: NodeHash, m: nat, e: seq<Uint256>)
    requires |e| == m + 1
    ensures var j, v := m / 2, Up(f, e);
      && |v| == j + 1 && LevelRoot(f, e) == LevelRoot(f, v)
      && v[j] == if m % 2 == 1 then f(e[m - 1], e[m]) else e[m]
  {
    if |e| > 1 { LevelStep(f, m, e); }
  }

  /** One level of the parallel walk. */
  lemma StepBoth(f: NodeHash, m: nat, e: seq<Uint256>, d: seq<Uint256>, rest: seq<Uint256>)
    requires Agree(e, d) && |e| == m + 1 && |d| > 1
    ensures ClimbBoth(f, e[m], d[m], m, |d| - 1, Sibling(m, m % 2 == 1, d) + rest)
         == ClimbBoth(f, if m % 2 == 1 then f(e[m - 1], e[m]) else e[m],
                         if m % 2 == 1 then f(d[m - 1], d[m]) else if m + 1 < |d| then f(d[m], d[m + 1]) else d[m],
                         m / 2, (|d| - 1) / 2, rest)
  {
    if m % 2 == 1 {
      assert e[m - 1] == e[..m][m - 1] == d[m - 1];
      assert ([d[m - 1]] + rest)[1..] == rest;
    } else if m + 1 < |d| {
      assert ([d[m + 1]] + rest)[1..] == rest;
    } else {
      assert [] + rest == rest;
    }
  }

  lemma TrueWalkUp(f: NodeHash, m: nat, e: seq<Uint256>, d: seq<Uint256>)
    requires Agree(e, d) && |e| == m + 1 && |d| > 1
    ensures var j, v, u := m / 2, Up(f, e), Up(f, d);
      && Agree(v, u) && |v| == j + 1 && |u| < |d|
      && LevelRoot(f, e) == LevelRoot(f, v) && LevelRoot(f, d) == LevelRoot(f, u)
      && ClimbBoth(f, e[m], d[m], m, |d| - 1, LevelPath(f, m, d))
         == ClimbBoth(f, v[j], u[j], j, |u| - 1, LevelPath(f, j, u))
  {
    hide LevelPath, LevelRoot, ClimbBoth, Sibling;
    UpAgrees(f, e, d);
    LevelStep(f, m, d);
    LastAbove(f, m, e);
    StepBoth(f, m, e, d, LevelPath(f, m / 2, Up(f, d)));
  }

  lemma {:induction false} TrueWalk(f: NodeHash, m: nat, e: seq<Uint256>, d: seq<Uint256>)
    requires Agree(e, d) && |e| == m + 1
    ensures ClimbBoth(f, e[m], d[m], m, |d| - 1, LevelPath(f, m, d))
         == Ok(Walk(LevelRoot(f, e), LevelRoot(f, d), []))
    decreases |d|
  {
    hide LevelPath, LevelRoot, ClimbBoth, Up;
    if |d| == 1 {
      TrueWalkTop(f, e, d);
    } else {
      TrueWalkUp(f, m, e, d);
      TrueWalk(f, m / 2, Up(f, e), Up(f, d));
    }
  }

  /** The new list at the level where the last of `m` old nodes is a left child. */
  function StripLevel(f: NodeHash, m: nat, d: seq<Uint256>): seq<Uint256>
    requires 0 < m <= |d|
    decreases m
  {
    if m % 2 == 0 then StripLevel(f, m / 2, Up(f, d)) else d
  }

  /** Stripping levels changes neither the two roots nor the proof. */
  ghost predicate Stripped(f: NodeHash, m: nat, d: seq<Uint256>, j: nat, u: seq<Uint256>)
  {
    && 0 < m <= |d| && 0 < j <= |u|
    && LevelRoot(f, u) == LevelRoot(f, d)
    && LevelRoot(f, u[..j]) == LevelRoot(f, d[..m])
    && ProofOf(f, j, u) == ProofOf(f, m, d)
  }

  lemma LevelRootUp(f: NodeHash, d: seq<Uint256>)
    requires |d| > 0
    ensures LevelRoot(f, Up(f, d)) == LevelRoot(f, d)
  {
  }

  lemma PrefixUp(f: NodeHash, m: nat, j: nat, d: seq<Uint256>)
    requires 0 < m <= |d| && m == 2 * j
    ensures LevelRoot(f, Up(f, d)[..j]) == LevelRoot(f, d[..m])
  {
    hide LevelRoot, Up;
    var e := d[..m];
    UpJoin(f, j, e, d[m..]);
    assert d == e + d[m..];
    assert Up(f, d)[..j] == Up(f, e);
    LevelRootUp(f, e);
  }

  lemma StripOne(f: NodeHash, m: nat, j: nat, d: seq<Uint256>)
    requires 0 < m <= |d| && m == 2 * j
    ensures Stripped(f, m, d, j, Up(f, d))
  {
    hide ProofOf, LevelRoot, Up;
    ProofUp(f, m, j, d);
    PrefixUp(f, m, j, d);
    LevelRootUp(f, d);
  }

  lemma StripStep(f: NodeHash, m: nat, j: nat, d: seq<Uint256>)
    requires 0 < m <= |d| && j == m / 2
    ensures m % 2 == 1 ==> Strip(m - 1, |d| - 1) == (m - 1, |d| - 1) && StripLevel(f, m, d) == d
    ensures m % 2 == 0 ==>
      && 0 < j <= |Up(f, d)|
      && Strip(m - 1, |d| - 1) == Strip(j - 1, |Up(f, d)| - 1)
      && StripLevel(f, m, d) == StripLevel(f, j, Up(f, d))
  {
    assert |Up(f, d)| - 1 == (|d| - 1) / 2;
    if m % 2 == 0 { assert (m - 1) / 2 == j - 1; }
  }

  lemma {:induction false} StripKeeps(f: NodeHash, m: nat, d: seq<Uint256>)
    requires 0 < m <= |d|
    ensures var (node, last) := Strip(m - 1, |d| - 1);
      |StripLevel(f, m, d)| == last + 1 && Stripped(f, m, d, node + 1, StripLevel(f, m, d))
    decreases m
  {
    hide LevelRoot, ProofOf, Up, Strip, StripLevel;
    var j, u := m / 2, Up(f, d);
    StripStep(f, m, j, d);
    if m % 2 == 0 {
      StripOne(f, m, j, d);
      StripKeeps(f, j, u);
    }
  }

  /** The parts of a stripped proof: the starting hash, then an audit path. */
  ghost predicate ProofParts(f: NodeHash, node: nat, u: seq<Uint256>, proof: seq<Uint256>)
    requires node < |u|
  {
    && proof != []
    && if node != 0 then proof[0] == u[node] && proof[1..] == LevelPath(f, node, u)
       else proof == LevelPath(f, 0, u)
  }

  lemma StrippedProof(f: NodeHash, node: nat, u: seq<Uint256>)
    requires node + 1 < |u| && node % 2 == 0
    ensures ProofParts(f, node, u, ProofOf(f, node + 1, u))
  {
    hide ProofOf, LevelPath;
    ProofAtLeaf(f, node, node / 2, u);
    ClimbPath(f, node, u);
  }

  /** At the stripped level `proof` has its parts, and the roots are still the two roots. */
  ghost predicate LevelProof(f: NodeHash, m: nat, d: seq<Uint256>, proof: seq<Uint256>)
    requires 0 < m < |d|
  {
    var (node, last) := Strip(m - 1, |d| - 1);
    var u := StripLevel(f, m, d);
    && node < last == |u| - 1
    && LevelRoot(f, u) == LevelRoot(f, d)
    && LevelRoot(f, u[..node + 1]) == LevelRoot(f, d[..m])
    && ProofParts(f, node, u, proof)
  }

  lemma LevelProofParts(f: NodeHash, m: nat, d: seq<Uint256>)
    requires 0 < m < |d|
    ensures LevelProof(f, m, d, ProofOf(f, m, d))
  {
    hide LevelRoot, LevelPath, ProofOf, StripLevel, Strip, ProofParts;
    var (node, last) := Strip(m - 1, |d| - 1);
    StripOrder(m - 1, |d| - 1);
    StripKeeps(f, m, d);
    StrippedProof(f, node, StripLevel(f, m, d));
  }

  /** The walk of a proof with its parts ends at the two roots. If the old tree is a full
      subtree of the new one, the walk starts at the claimed old root. */
  lemma StrippedWalk(f: NodeHash, node: nat, last: nat, u: seq<Uint256>, proof: seq<Uint256>, oldRoot: Uint256)
    requires node < last == |u| - 1 && ProofParts(f, node, u, proof)
    requires node != 0 || oldRoot == LevelRoot(f, u[..node + 1])
    ensures (if node != 0 then ClimbBoth(f, proof[0], proof[0], node, last, proof[1..])
             else ClimbBoth(f, oldRoot, oldRoot, node, last, proof))
         == Ok(Walk(LevelRoot(f, u[..node + 1]), LevelRoot(f, u), []))
  {
    var e := u[..node + 1];
    assert e[node] == u[node];
    if node == 0 { assert LevelRoot(f, e) == u[0]; }
    TrueWalk(f, node, e, u);
  }

  /** The RFC proof decides any two roots: which of them is wrong is what is reported. */
  lemma LevelProofTells(f: NodeHash, m: nat, d: seq<Uint256>, proof: seq<Uint256>, oldRoot: Uint256, newRoot: Uint256)
    requires 0 < m < |d| && LevelProof(f, m, d, proof) && oldRoot != newRoot
    requires Strip(m - 1, |d| - 1).0 != 0 || oldRoot == LevelRoot(f, d[..m])
    ensures Consistency(f, m, |d|, oldRoot, newRoot, proof) ==
      if newRoot != LevelRoot(f, d) then Err(NewRootMismatch)
      else if oldRoot != LevelRoot(f, d[..m]) then Err(OldRootMismatch)
      else Ok(())
  {
    hide ClimbBoth, LevelRoot, StripLevel;
    var (node, last) := Strip(m - 1, |d| - 1);
    StrippedWalk(f, node, last, StripLevel(f, m, d), proof, oldRoot);
  }

  /** With the RFC proof a wrong root is reported as what it is. Where the old tree is a full
      subtree of the new one, its own root is where the check starts, and only the new root can
      be told wrong. */
  lemma MismatchTells(f: NodeHash, m: nat, d: seq<Uint256>, oldRoot: Uint256, newRoot: Uint256)
    requires 0 < m < |d| && oldRoot != newRoot
    requires Strip(m - 1, |d| - 1).0 != 0 || oldRoot == Root(f, d[..m])
    ensures Consistency(f, m, |d|, oldRoot, newRoot, ProofOf(f, m, d)) ==
      if newRoot != Root(f, d) then Err(NewRootMismatch)
      else if oldRoot != Root(f, d[..m]) then Err(OldRootMismatch)
      else Ok(())
  {
    LevelRootIsRoot(f, d);
    LevelRootIsRoot(f, d[..m]);
    LevelProofParts(f, m, d);
    LevelProofTells(f, m, d, ProofOf(f, m, d), oldRoot, newRoot);
  }

  lemma EqualRoots(f: NodeHash, m: nat, n: nat, root: Uint256, proof: seq<Uint256>)
    requires 0 < m <= n
    ensures Consistency(f, m, n, root, root, proof) == Ok(())
  {
  }

  /** Completeness: the RFC consistency proof between the first `m` leaves and all
      leaves is accepted for the two true roots. */
  lemma ConsistencyComplete(f: NodeHash, m: nat, d: seq<Uint256>)
    requires 0 < m <= |d|
    ensures Consistency(f, m, |d|, Root(f, d[..m]), Root(f, d), ProofOf(f, m, d)) == Ok(())
  {
    hide Consistency, ProofOf;
    if m == |d| {
      assert d[..m] == d;
      EqualRoots(f, m, |d|, Root(f, d), ProofOf(f, m, d));
    } else if Root(f, d[..m]) == Root(f, d) {
      EqualRoots(f, m, |d|, Root(f, d), ProofOf(f, m, d));
    } else {
      MismatchTells(f, m, d, Root(f, d[..m]), Root(f, d));
    }
  }

  /** The lengths that the verifier asks for are those of the proofs of RFC 6962. */
  lemma ProofHasLength(f: NodeHash, m: nat, d: seq<Uint256>)
    requires 0 < m < |d|
    ensures |ProofOf(f, m, d)| == ProofLength(m, |d|)
  {
    hide LevelRoot, LevelPath, ProofOf, StripLevel, Strip, Siblings;
    var (node, last) := Strip(m - 1, |d| - 1);
    StripOrder(m - 1, |d| - 1);
    LevelProofParts(f, m, d);
    PathHasLength(f, node, StripLevel(f, m, d));
  }

  /** The new half of the parallel walk is the walk of an audit path. */
  lemma {:induction false} ClimbBothIsClimb(f: NodeHash, oldHash: Uint256, newHash: Uint256, node: nat, last: nat,
                                            path: seq<Uint256>)
    requires node <= last
    requires var w := ClimbBoth(f, oldHash, newHash, node, last, path); w.Ok? && w.value.rest == []
    ensures last > 0 ==> path != []
    ensures Climb(f, newHash, node, last, path)
         == Ok(ClimbBoth(f, oldHash, newHash, node, last, path).value.newHash)
    decreases last
  {
    if last > 0 {
      if node % 2 == 0 && node == last {
        ClimbBothIsClimb(f, oldHash, newHash, node / 2, last / 2, path);
      } else if node % 2 == 1 {
        ClimbBothIsClimb(f, f(path[0], oldHash), f(path[0], newHash), node / 2, last / 2, path[1..]);
      } else {
        ClimbBothIsClimb(f, oldHash, f(newHash, path[0]), node / 2, last / 2, path[1..]);
      }
    }
  }

  /** Where an accepted proof started and which siblings it used. */
  function SeedOf(node: nat, oldRoot: Uint256, proof: seq<Uint256>): (Uint256, seq<Uint256>)
    requires proof != []
  {
    if node != 0 then (proof[0], proof[1..]) else (oldRoot, proof)
  }

  /** An accepted walk to a wrong old root did not use the true hashes. */
  lemma WrongOldRoot(f: NodeHash, node: nat, last: nat, u: seq<Uint256>, oldRoot: Uint256, seed: Uint256,
                     rest: seq<Uint256>)
    requires node <= last == |u| - 1 && oldRoot != LevelRoot(f, u[..node + 1])
    requires Conclude(ClimbBoth(f, seed, seed, node, last, rest), oldRoot, LevelRoot(f, u)).Ok?
    ensures Climb(f, seed, node, last, rest) == Ok(LevelRoot(f, u))
    ensures seed != u[node] || rest != LevelPath(f, node, u)
  {
    hide LevelRoot, LevelPath, ClimbBoth, Climb;
    ClimbBothIsClimb(f, seed, seed, node, last, rest);
    TrueWalk(f, node, u[..node + 1], u);
  }

  /** A proof is the RFC proof, or it does not start and go on as that does. */
  lemma WrongProof(f: NodeHash, m: nat, d: seq<Uint256>, oldRoot: Uint256, proof: seq<Uint256>)
    requires 0 < m < |d| && proof != [] && proof != ProofOf(f, m, d)
    requires oldRoot == LevelRoot(f, d[..m])
    ensures var node, u := Strip(m - 1, |d| - 1).0, StripLevel(f, m, d);
      var (seed, rest) := SeedOf(node, oldRoot, proof);
      node < |u| && (seed != u[node] || rest != LevelPath(f, node, u))
  {
    hide LevelRoot, LevelPath, ProofOf, StripLevel;
    LevelProofParts(f, m, d);
    var node := Strip(m - 1, |d| - 1).0;
    var t := ProofOf(f, m, d);
    assert proof == [proof[0]] + proof[1..] && t == [t[0]] + t[1..];
  }

  /** A proof that is accepted without being the one to accept. */
  ghost predicate Forged(f: NodeHash, m: nat, d: seq<Uint256>, oldRoot: Uint256, proof: seq<Uint256>)
  {
    && 0 < m <= |d| && Consistency(f, m, |d|, oldRoot, LevelRoot(f, d), proof).Ok?
    && oldRoot != LevelRoot(f, d) && (oldRoot != LevelRoot(f, d[..m]) || proof != ProofOf(f, m, d))
  }

  lemma AcceptedWalk(f: NodeHash, node: nat, last: nat, u: seq<Uint256>, oldRoot: Uint256, seed: Uint256,
                     rest: seq<Uint256>)
    requires node <= last == |u| - 1
    requires Conclude(ClimbBoth(f, seed, seed, node, last, rest), oldRoot, LevelRoot(f, u)).Ok?
    ensures Climb(f, seed, node, last, rest) == Ok(LevelRoot(f, u))
  {
    hide LevelRoot, ClimbBoth, Climb;
    ClimbBothIsClimb(f, seed, seed, node, last, rest);
  }

  lemma CollisionAt(f: NodeHash, m: nat, d: seq<Uint256>, oldRoot: Uint256, proof: seq<Uint256>)
    requires Forged(f, m, d, oldRoot, proof)
    ensures proof != []
    ensures var node, u := Strip(m - 1, |d| - 1).0, StripLevel(f, m, d);
      var (seed, rest) := SeedOf(node, oldRoot, proof);
      && node < |u|
      && Climb(f, seed, node, |u| - 1, rest) == Ok(LevelRoot(f, u))
      && (seed != u[node] || rest != LevelPath(f, node, u))
  {
    hide LevelRoot, LevelPath, ClimbBoth, Climb, ProofOf, Conclude, StripLevel;
    var (node, last) := Strip(m - 1, |d| - 1);
    var (seed, rest) := SeedOf(node, oldRoot, proof);
    var u := StripLevel(f, m, d);
    assert d[..|d|] == d;
    StripKeeps(f, m, d);
    AcceptedWalk(f, node, last, u, oldRoot, seed, rest);
    if oldRoot == LevelRoot(f, d[..m]) {
      WrongProof(f, m, d, oldRoot, proof);
    } else {
      WrongOldRoot(f, node, last, u, oldRoot, seed, rest);
    }
  }

  lemma {:induction false} StripInputs(f: NodeHash, m: nat, d: seq<Uint256>)
    requires 0 < m <= |d|
    ensures LevelInputs(f, StripLevel(f, m, d)) <= LevelInputs(f, d)
    decreases m
  {
    hide Up, LowInputs;
    if m % 2 == 0 { StripInputs(f, m / 2, Up(f, d)); }
  }

  /** The inputs that the check of a consistency proof hashes on the way to the new root. */
  function ProofWalked(f: NodeHash, m: nat, n: nat, oldRoot: Uint256, proof: seq<Uint256>): set<Pair>
    requires 0 < m <= n
  {
    var (node, last) := Strip(m - 1, n - 1);
    if proof == [] then {}
    else
      var (seed, rest) := SeedOf(node, oldRoot, proof);
      Walked(f, seed, node, last, rest)
  }

  /** Soundness: a proof accepted for the true new root that is not the RFC proof for the
      true old root yields an input of the check that collides with an input of the tree,
      unless the old root is the new root again. */
  lemma ConsistencyCollision(f: NodeHash, m: nat, d: seq<Uint256>, oldRoot: Uint256, proof: seq<Uint256>)
    returns (c: (Pair, Pair))
    requires Forged(f, m, d, oldRoot, proof)
    ensures Located(f, c, ProofWalked(f, m, |d|, oldRoot, proof), d)
  {
    hide Climb, LevelRoot, LevelPath, Walked, LevelInputs, Consistency, ProofOf, StripLevel, Strip;
    CollisionAt(f, m, d, oldRoot, proof);
    StripKeeps(f, m, d);
    StripInputs(f, m, d);
    var node := Strip(m - 1, |d| - 1).0;
    var (seed, rest) := SeedOf(node, oldRoot, proof);
    c := ClimbCollision(f, seed, node, StripLevel(f, m, d), rest);
  }

  // ---------- what acceptance means when nothing hashed collides ----------

  /** An audit path is accepted for the true root exactly when it is the leaf's own, if
      the walk hashes no input that collides with one of the tree. */
  lemma InclusionExact(f: NodeHash, h: Uint256, m: nat, d: seq<Uint256>, path: seq<Uint256>)
    requires m < |d| && Apart(f, Walked(f, h, m, |d| - 1, path), Inputs(f, TreeOf(d)))
    ensures Included(f, h, m, path, Root(f, d), |d|) <==> h == d[m] && path == PathOf(f, m, d)
  {
    LevelPathIsPath(f, m, d);
    LevelRootIsRoot(f, d);
    LevelInputsAreInputs(f, d);
    ClimbPath(f, m, d);
    if Included(f, h, m, path, Root(f, d), |d|) && (h != d[m] || path != PathOf(f, m, d)) {
      var c := ClimbCollision(f, h, m, d, path);
      assert false;
    }
  }

  lemma NotForged(f: NodeHash, m: nat, d: seq<Uint256>, oldRoot: Uint256, proof: seq<Uint256>)
    requires 0 < m <= |d| && Apart(f, ProofWalked(f, m, |d|, oldRoot, proof), Inputs(f, TreeOf(d)))
    ensures !Forged(f, m, d, oldRoot, proof)
  {
    hide Forged, ProofWalked, Inputs, TreeOf, LevelInputs;
    LevelInputsAreInputs(f, d);
    if Forged(f, m, d, oldRoot, proof) {
      var c := ConsistencyCollision(f, m, d, oldRoot, proof);
      assert false;
    }
  }

  /** A consistency proof is accepted for the true new root exactly when it is the RFC
      proof for the true old root, or the old root is the new root again: the early exit
      on equal roots looks at nothing else. This holds wherever the check hashes no input
      that collides with one of the tree. */
  lemma ConsistencyExact(f: NodeHash, m: nat, d: seq<Uint256>, oldRoot: Uint256, proof: seq<Uint256>)
    requires 0 < m <= |d| && Apart(f, ProofWalked(f, m, |d|, oldRoot, proof), Inputs(f, TreeOf(d)))
    ensures Consistency(f, m, |d|, oldRoot, Root(f, d), proof).Ok? <==>
      oldRoot == Root(f, d) || (oldRoot == Root(f, d[..m]) && proof == ProofOf(f, m, d))
  {
    hide ProofOf, Root, LevelRoot, Consistency, ProofWalked, Inputs, TreeOf, Apart;
    LevelRootIsRoot(f, d);
    LevelRootIsRoot(f, d[..m]);
    ConsistencyComplete(f, m, d);
    EqualRoots(f, m, |d|, oldRoot, proof);
    NotForged(f, m, d, oldRoot, proof);
  }
}
