/** The transaction root of common/merkle_tree.go: neighbours are paired, a last one
    without neighbour is paired with itself. `PairHash` is the double SHA-256 of two
    hashes in a row. */
module TxRoot {
  import opened Common
  import Bits
  import MerkleLevels
  import MerkleSpec

  type PairHash = (Uint256, Uint256) -> Uint256

  /** One level up. */
  function PairUp(f: PairHash, d: seq<Uint256>): (u: seq<Uint256>)
    ensures |d| <= 2 * |u| <= |d| + 1
  {
    if d == [] then []
    else if |d| == 1 then [f(d[0], d[0])]
    else [f(d[0], d[1])] + PairUp(f, d[2..])
  }

  function Root(f: PairHash, d: seq<Uint256>): Uint256
    decreases |d|
  {
    if d == [] then EMPTY_HASH else if |d| == 1 then d[0] else Root(f, PairUp(f, d))
  }

  lemma {:induction false} PairUpAt(f: PairHash, d: seq<Uint256>, k: nat)
    requires 2 * k < |d|
    ensures PairUp(f, d)[k] == f(d[2 * k], if 2 * k + 1 < |d| then d[2 * k + 1] else d[2 * k])
    decreases k
  {
    if k > 0 { PairUpAt(f, d[2..], k - 1); }
  }

  /** Pairs, and a last one without neighbour: the next level. */
  lemma PairedUp(f: PairHash, d: seq<Uint256>, u: seq<Uint256>, n: nat)
    requires 2 * n <= |d| <= 2 * n + 1 && |u| == |d| - n
    requires forall k :: 0 <= k < n ==> u[k] == f(d[2 * k], d[2 * k + 1])
    requires |d| == 2 * n + 1 ==> u[n] == f(d[2 * n], d[2 * n])
    ensures u == PairUp(f, d)
  {
    hide PairUp;
    forall k: nat | k < |u| ensures u[k] == PairUp(f, d)[k] {
      PairUpAt(f, d, k);
    }
  }

  /** One round over the first `len` entries of the workspace. */
  method PairInPlace(f: PairHash, a: array<Uint256>, len: nat) returns (next: nat)
    requires 1 < len <= a.Length
    modifies a
    ensures 0 < next < len && a[..next] == PairUp(f, old(a[..len]))
    ensures len <= 2 * next <= len + 1
    ensures forall k :: 0 <= k < next ==>
      a[k] == f(old(a[2 * k]), if 2 * k + 1 < len then old(a[2 * k + 1]) else old(a[2 * k]))
  {
    hide PairUp;
    ghost var d := a[..len];
    var n := len / 2;
    assert 2 * n <= len <= 2 * n + 1;
    for i := 0 to n
      invariant forall k :: 0 <= k < i ==> a[k] == f(d[2 * k], d[2 * k + 1])
      invariant forall k :: i <= k < len ==> a[k] == d[k]
    {
      a[i] := f(a[2 * i], a[2 * i + 1]);
    }
    next := n;
    if len == 2 * n + 1 {
      a[n] := f(a[2 * n], a[2 * n]);
      next := n + 1;
    }
    PairedUp(f, d, a[..next], n);
  }

  /** `ComputeMerkleRoot`, which overwrites its input. */
  method ComputeMerkleRoot(f: PairHash, a: array<Uint256>) returns (root: Uint256)
    modifies a
    ensures root == Root(f, old(a[..]))
  {
    if a.Length == 0 {
      return EMPTY_HASH;
    }
    var len := a.Length;
    assert a[..len] == a[..];
    while len != 1
      invariant 0 < len <= a.Length && Root(f, a[..len]) == Root(f, old(a[..]))
      decreases len
    {
      len := PairInPlace(f, a, len);
    }
    root := a[0];
  }

  // ---------- what the root says ----------

  /** A last entry may be repeated without a change of the root: lists are told apart
      only among lists without duplicates. */
  lemma RepeatedLast(f: PairHash, d: seq<Uint256>, j: nat)
    requires |d| == 2 * j + 1 && j > 0
    ensures Root(f, d + [d[2 * j]]) == Root(f, d)
  {
    hide PairUp;
    var e := d + [d[2 * j]];
    assert |PairUp(f, d)| == |PairUp(f, e)| == j + 1;
    forall k: nat | k <= j ensures PairUp(f, e)[k] == PairUp(f, d)[k] {
      PairUpAt(f, d, k);
      PairUpAt(f, e, k);
    }
    assert PairUp(f, e) == PairUp(f, d);
  }

  /** The input that entry `k` of the next level is the hash of. */
  function PairAt(d: seq<Uint256>, k: nat): Pair
    requires 2 * k < |d|
  {
    (d[2 * k], if 2 * k + 1 < |d| then d[2 * k + 1] else d[2 * k])
  }

  function LowPairs(d: seq<Uint256>): set<Pair>
  {
    if d == [] then {}
    else if |d| == 1 then {(d[0], d[0])}
    else {(d[0], d[1])} + LowPairs(d[2..])
  }

  /** The inputs hashed on the way to the root. */
  function Inputs(f: PairHash, d: seq<Uint256>): set<Pair>
    decreases |d|
  {
    if |d| <= 1 then {} else LowPairs(d) + Inputs(f, PairUp(f, d))
  }

  lemma {:induction false} LowPairAt(d: seq<Uint256>, k: nat)
    requires 2 * k < |d|
    ensures PairAt(d, k) in LowPairs(d)
    decreases k
  {
    if k > 0 { LowPairAt(d[2..], k - 1); }
  }

  lemma {:induction false} LowPairIndex(d: seq<Uint256>, q: Pair) returns (k: nat)
    requires q in LowPairs(d)
    ensures 2 * k < |d| && q == PairAt(d, k)
  {
    if |d| == 1 || q == (d[0], d[1]) {
      k := 0;
    } else {
      k := LowPairIndex(d[2..], q);
      k := k + 1;
    }
  }

  /** What is hashed above the lowest level is itself a hash. */
  lemma {:induction false} UpperIsNode(f: PairHash, d: seq<Uint256>, q: Pair) returns (r: Pair)
    requires |d| > 1 && q in Inputs(f, PairUp(f, d))
    ensures r in Inputs(f, d) && q.0 == f(r.0, r.1)
    decreases |d|
  {
    hide PairUp, LowPairs;
    var u := PairUp(f, d);
    if q in LowPairs(u) {
      var k := LowPairIndex(u, q);
      r := PairAt(d, 2 * k);
      PairUpAt(f, d, 2 * k);
      LowPairAt(d, 2 * k);
    } else {
      r := UpperIsNode(f, u, q);
    }
  }

  /** The last input hashed gives the root. */
  lemma {:induction false} TopInput(f: PairHash, d: seq<Uint256>) returns (p: Pair)
    requires |d| > 1
    ensures p in Inputs(f, d) && Root(f, d) == f(p.0, p.1)
    decreases |d|
  {
    hide LowPairs, PairUp;
    var u := PairUp(f, d);
    if |u| == 1 {
      p := PairAt(d, 0);
      PairUpAt(f, d, 0);
      LowPairAt(d, 0);
    } else {
      p := TopInput(f, u);
    }
  }

  /** Entries of two next levels are the same only for the same input. */
  lemma SameInput(f: PairHash, s: set<Pair>, d: seq<Uint256>, i: nat, e: seq<Uint256>, j: nat)
    requires Apart(f, s, s) && 2 * i < |d| && 2 * j < |e| && LowPairs(d) <= s && LowPairs(e) <= s
    requires PairUp(f, d)[i] == PairUp(f, e)[j]
    ensures PairAt(d, i) == PairAt(e, j)
  {
    hide PairUp, LowPairs;
    PairUpAt(f, d, i);
    PairUpAt(f, e, j);
    LowPairAt(d, i);
    LowPairAt(e, j);
    assert !Collides(f, (PairAt(d, i), PairAt(e, j)));
  }

  lemma PairUpDistinct(f: PairHash, s: set<Pair>, d: seq<Uint256>)
    requires Apart(f, s, s) && LowPairs(d) <= s && Distinct(d)
    ensures Distinct(PairUp(f, d))
  {
    hide PairUp, LowPairs, Apart;
    var u := PairUp(f, d);
    forall i: nat, j: nat | i < j < |u| ensures u[i] != u[j] {
      if u[i] == u[j] { SameInput(f, s, d, i, d, j); }
    }
  }

  /** Lists without duplicates with the same next level are the same: a longer one would
      end in a repeated entry. */
  lemma PairUpBinds(f: PairHash, s: set<Pair>, d: seq<Uint256>, e: seq<Uint256>)
    requires Apart(f, s, s) && LowPairs(d) <= s && LowPairs(e) <= s && Distinct(d) && Distinct(e)
    requires PairUp(f, d) == PairUp(f, e)
    ensures d == e
  {
    hide PairUp, LowPairs, Apart;
    var n := |PairUp(f, d)|;
    forall k: nat | k < n ensures PairAt(d, k) == PairAt(e, k) {
      SameInput(f, s, d, k, e, k);
    }
    assert |d| == |e| by {
      if n > 0 { assert PairAt(d, n - 1) == PairAt(e, n - 1); }
    }
    forall i: nat | i < |d| ensures d[i] == e[i] {
      var k := i / 2;
      assert i == 2 * k || i == 2 * k + 1;
      assert PairAt(d, k) == PairAt(e, k);
    }
  }

  /** Why two lists without duplicates can have one root. */
  datatype Reason = Same | FirstIsNode(i: nat, p: Pair) | SecondIsNode(i: nat, p: Pair)

  /** They are the same, or an entry of one is the hash of an input of the other. */
  predicate Explains(f: PairHash, r: Reason, d: seq<Uint256>, e: seq<Uint256>)
  {
    match r
    case Same => d == e
    case FirstIsNode(i, p) => i < |d| && p in Inputs(f, e) && d[i] == f(p.0, p.1)
    case SecondIsNode(i, p) => i < |e| && p in Inputs(f, d) && e[i] == f(p.0, p.1)
  }

  /** An entry of the next level that is the hash of a higher input of the other list: its
      own input is that one, so one level down an entry is a hash too. */
  lemma OneLower(f: PairHash, s: set<Pair>, d: seq<Uint256>, e: seq<Uint256>, i: nat, q: Pair) returns (p: Pair)
    requires |d| > 1 && |e| > 1 && Apart(f, s, s) && Inputs(f, d) <= s && Inputs(f, e) <= s
    requires i < |PairUp(f, d)| && q in Inputs(f, PairUp(f, e)) && PairUp(f, d)[i] == f(q.0, q.1)
    ensures 2 * i < |d| && p in Inputs(f, e) && d[2 * i] == f(p.0, p.1)
  {
    hide PairUp, LowPairs;
    PairUpAt(f, d, i);
    LowPairAt(d, i);
    assert !Collides(f, (PairAt(d, i), q));
    p := UpperIsNode(f, e, q);
  }

  /** Lists of any lengths without duplicates, with one root and no collision among all
      inputs hashed, are the same, or an entry of one is a hash made for the other. */
  lemma {:induction false} RootBinds(f: PairHash, s: set<Pair>, d: seq<Uint256>, e: seq<Uint256>) returns (r: Reason)
    requires d != [] && e != [] && Distinct(d) && Distinct(e) && Root(f, d) == Root(f, e)
    requires Apart(f, s, s) && Inputs(f, d) <= s && Inputs(f, e) <= s
    ensures Explains(f, r, d, e)
    decreases |d|
  {
    if |d| == 1 && |e| == 1 {
      r := Same;
    } else if |d| == 1 {
      var p := TopInput(f, e);
      r := FirstIsNode(0, p);
    } else if |e| == 1 {
      var p := TopInput(f, d);
      r := SecondIsNode(0, p);
    } else {
      r := RootBindsUp(f, s, d, e);
    }
  }

  lemma {:induction false} RootBindsUp(f: PairHash, s: set<Pair>, d: seq<Uint256>, e: seq<Uint256>)
    returns (r: Reason)
    requires |d| > 1 && |e| > 1 && Distinct(d) && Distinct(e) && Root(f, d) == Root(f, e)
    requires Apart(f, s, s) && Inputs(f, d) <= s && Inputs(f, e) <= s
    ensures Explains(f, r, d, e)
    decreases |d|, 0
  {
    hide PairUp, LowPairs, Distinct, Apart;
    var u, v := PairUp(f, d), PairUp(f, e);
    PairUpDistinct(f, s, d);
    PairUpDistinct(f, s, e);
    r := RootBinds(f, s, u, v);
    match r
    case Same => PairUpBinds(f, s, d, e);
    case FirstIsNode(i, q) =>
      var p := OneLower(f, s, d, e, i, q);
      r := FirstIsNode(2 * i, p);
    case SecondIsNode(i, q) =>
      var p := OneLower(f, s, e, d, i, q);
      r := SecondIsNode(2 * i, p);
  }

  /** No hash that occurs for two lists is mistaken for another. */
  ghost predicate Unmistaken(f: PairHash, d: seq<Uint256>, e: seq<Uint256>)
  {
    var s := Inputs(f, d) + Inputs(f, e);
    && Apart(f, s, s)
    && (forall i, p :: 0 <= i < |d| && p in s ==> d[i] != f(p.0, p.1))
    && (forall i, p :: 0 <= i < |e| && p in s ==> e[i] != f(p.0, p.1))
    && EMPTY_HASH !in d && EMPTY_HASH !in e && forall p :: p in s ==> f(p.0, p.1) != EMPTY_HASH
  }

  lemma NotEmptyRoot(f: PairHash, d: seq<Uint256>, s: set<Pair>)
    requires EMPTY_HASH !in d && Inputs(f, d) <= s && forall p :: p in s ==> f(p.0, p.1) != EMPTY_HASH
    ensures Root(f, d) == EMPTY_HASH <==> d == []
  {
    hide PairUp, LowPairs;
    if |d| > 1 { var p := TopInput(f, d); }
  }

  /** Among lists without duplicates, of any lengths, the root tells all lists apart. */
  lemma RootExact(f: PairHash, d: seq<Uint256>, e: seq<Uint256>)
    requires Distinct(d) && Distinct(e) && Unmistaken(f, d, e)
    ensures Root(f, d) == Root(f, e) <==> d == e
  {
    hide PairUp, LowPairs, Distinct, Inputs, Root;
    var s := Inputs(f, d) + Inputs(f, e);
    NotEmptyRoot(f, d, s);
    NotEmptyRoot(f, e, s);
    if d != [] && e != [] && Root(f, d) == Root(f, e) {
      var r := RootBinds(f, s, d, e);
    }
  }

  // ---------- the trees of full size ----------

  lemma {:induction false} EvenUp(f: PairHash, d: seq<Uint256>)
    requires |d| % 2 == 0
    ensures PairUp(f, d) == MerkleLevels.Up(f, d) && 2 * |PairUp(f, d)| == |d|
  {
    if d != [] { EvenUp(f, d[2..]); }
  }

  lemma {:induction false} FullSizeLevel(f: PairHash, d: seq<Uint256>, k: nat)
    requires |d| == Bits.Pow2(k)
    ensures d != [] && Root(f, d) == MerkleLevels.LevelRoot(f, d)
    decreases k
  {
    if k > 0 {
      assert |d| == 2 * Bits.Pow2(k - 1);
      EvenUp(f, d);
      FullSizeLevel(f, PairUp(f, d), k - 1);
    }
  }

  /** Where no entry is ever without neighbour, the root is that of section 2.1 of RFC 6962. */
  lemma FullSizeRoot(f: PairHash, d: seq<Uint256>, k: nat)
    requires |d| == Bits.Pow2(k)
    ensures d != [] && Root(f, d) == MerkleSpec.Root(f, d)
  {
    FullSizeLevel(f, d, k);
    MerkleLevels.LevelRootIsRoot(f, d);
  }
}
