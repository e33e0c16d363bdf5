/** `TreeHasher` and the proofs of membership of merkle/merkle_hasher.go: the root by
    recursion, the root level by level, and paths as bytes. Leaf hashing and interior
    hashing are parameters. */
module MerkleHasher {
  import opened Common
  import opened Bits
  import opened MerkleSpec
  import opened MerkleLevels
  import opened MerkleTree
  import opened Wire
  import WireSource
  import opened WireSink
  import opened WireList

  // ---------- recursion ----------

  datatype Hashed = Hashed(root: Uint256, hashes: seq<Uint256>)

  function Combine(f: NodeHash, a: Hashed, b: Hashed, full: bool): Hashed
  {
    var root := f(a.root, b.root);
    Hashed(root, if full then [root] else a.hashes + b.hashes)
  }

  /** `_hash_full` over the leaves from `l` to `r`. */
  function HashFull(f: NodeHash, empty: Uint256, leaves: seq<Uint256>, l: nat, r: nat): Hashed
    requires l <= r <= |leaves|
    decreases r - l
  {
    var width := r - l;
    if width == 0 then Hashed(empty, [])
    else if width == 1 then Hashed(leaves[l], [leaves[l]])
    else
      SplitIsShift(width);
      var split := Pow2(HighBit(width - 1) - 1);
      var left := HashFull(f, empty, leaves, l, l + split);
      var right := HashFull(f, empty, leaves, l + split, r);
      Combine(f, left, right, split * 2 == width)
  }

  /** The full subtrees of a tree from those of its two parts. */
  lemma ForestSplit(t: Tree)
    requires Shaped(t) && t.Node?
    ensures Forest(t.left) == [t.left]
    ensures Forest(t) == if 2 * Size(t.left) == Size(t) then [t] else Forest(t.left) + Forest(t.right)
  {
    hide Perfect, Leaves;
    FullIsPerfect(t.left);
    if 2 * Size(t.left) == Size(t) {
      PerfectDouble(Size(t.left));
      PerfectIsFull(t);
    }
  }

  lemma HashesBoth(f: NodeHash, g: seq<Tree>, h: seq<Tree>)
    ensures Hashes(f, g + h) == Hashes(f, g) + Hashes(f, h)
  {
  }

  lemma HashesOne(f: NodeHash, t: Tree)
    ensures Hashes(f, [t]) == [Hash(f, t)]
  {
  }

  /** The kept hashes of a list from those of its two parts. */
  lemma KeptSplit(f: NodeHash, d: seq<Uint256>)
    requires |d| > 1
    ensures var k := Split(|d|);
      && Root(f, d) == f(Root(f, d[..k]), Root(f, d[k..])) && |Kept(f, d[..k])| == 1
      && Kept(f, d) == if 2 * k == |d| then [Root(f, d)] else Kept(f, d[..k]) + Kept(f, d[k..])
  {
    hide Forest, Shaped, Size, Hashes, Split;
    var k, t := Split(|d|), TreeOf(d);
    TreeOfShaped(d);
    TreeOfShaped(d[..k]);
    var l, r := TreeOf(d[..k]), TreeOf(d[k..]);
    assert t == Node(l, r);
    ForestSplit(t);
    HashesOne(f, t);
    HashesBoth(f, Forest(l), Forest(r));
  }

  lemma HashFullSmall(f: NodeHash, empty: Uint256, leaves: seq<Uint256>, l: nat, r: nat)
    requires l <= r <= |leaves| && r - l <= 1
    ensures HashFull(f, empty, leaves, l, r) == Hashed(LogRoot(f, empty, leaves[l..r]), Kept(f, leaves[l..r]))
  {
    if r - l == 1 { assert leaves[l..r] == [leaves[l]]; }
  }

  lemma HashFullSplit(f: NodeHash, empty: Uint256, leaves: seq<Uint256>, l: nat, m: nat, r: nat)
    requires l < m < r <= |leaves| && m == l + Split(r - l)
    ensures HashFull(f, empty, leaves, l, r) ==
      Combine(f, HashFull(f, empty, leaves, l, m), HashFull(f, empty, leaves, m, r), 2 * (m - l) == r - l)
  {
    hide Combine, Pow2, HighBit, Split;
    SplitIsShift(r - l);
    assert l + Pow2(HighBit(r - l - 1) - 1) == m;
  }

  /** The recursion gives the root and the kept hashes of the log, so neither of its
      panics is reached: the left part has one hash, and there are as many as 1 bits. */
  lemma {:induction false} HashFullIs(f: NodeHash, empty: Uint256, leaves: seq<Uint256>, l: nat, r: nat)
    requires l <= r <= |leaves|
    ensures HashFull(f, empty, leaves, l, r) == Hashed(LogRoot(f, empty, leaves[l..r]), Kept(f, leaves[l..r]))
    ensures |HashFull(f, empty, leaves, l, r).hashes| == CountBit(r - l)
    ensures r - l > 1 ==> |HashFull(f, empty, leaves, l, l + Split(r - l)).hashes| == 1
    decreases r - l
  {
    hide HashFull, Kept, Root, CountBit;
    var d, n := leaves[l..r], r - l;
    KeptCount(f, d);
    if n <= 1 {
      HashFullSmall(f, empty, leaves, l, r);
    } else {
      var k := Split(n);
      var m := l + k;
      HashFullIs(f, empty, leaves, l, m);
      HashFullIs(f, empty, leaves, m, r);
      assert leaves[l..m] == d[..k] && leaves[m..r] == d[k..];
      KeptSplit(f, d);
      HashFullSplit(f, empty, leaves, l, m, r);
    }
  }

  // ---------- level by level ----------

  method NextLevel(f: NodeHash, level: seq<Uint256>) returns (next: seq<Uint256>)
    ensures next == Up(f, level)
  {
    hide Up;
    var n, remainder := |level| / 2, |level| % 2;
    var a := new Uint256[n + remainder](_ => EMPTY_HASH);
    var k := 0;
    while k < n
      invariant 0 <= k <= n
      invariant forall i :: 0 <= i < k ==> a[i] == f(level[2 * i], level[2 * i + 1])
    {
      a[k] := f(level[2 * k], level[2 * k + 1]);
      k := k + 1;
    }
    if remainder != 0 {
      a[k] := level[|level| - 1];
    }
    next := a[..];
    forall i: nat | i < |next| ensures next[i] == Up(f, level)[i] {
      UpAt(f, level, i);
    }
  }

  lemma {:induction false} UpByNext(f: NodeHash, d: seq<Uint256>, k: nat)
    ensures UpBy(f, d, k + 1) == Up(f, UpBy(f, d, k))
    decreases k
  {
    if k > 0 { UpByNext(f, Up(f, d), k - 1); }
  }

  /** `MerkleHashes`: the levels, the root first if there are enough. */
  method MerkleHashes(f: NodeHash, leaves: seq<Uint256>, depth: nat) returns (levels: seq<seq<Uint256>>)
    ensures |levels| == depth + 1 && forall i :: 0 <= i <= depth ==> levels[i] == UpBy(f, leaves, depth - i)
  {
    levels := seq(depth + 1, _ => []);
    levels := levels[depth := leaves];
    var i := depth;
    while i > 0
      invariant 0 <= i <= depth && |levels| == depth + 1
      invariant forall j :: i <= j <= depth ==> levels[j] == UpBy(f, leaves, depth - j)
    {
      var next := NextLevel(f, levels[i]);
      UpByNext(f, leaves, depth - i);
      levels := levels[i - 1 := next];
      i := i - 1;
    }
  }

  /** All three ways to the root agree: the fold of the kept hashes that the log appends
      to, the recursion, and the top of the levels. */
  lemma ThreeRoots(f: NodeHash, empty: Uint256, d: seq<Uint256>)
    requires |d| > 0
    ensures Kept(f, d) != [] && Fold(f, Kept(f, d)) == Root(f, d)
    ensures HashFull(f, empty, d, 0, |d|) == Hashed(Root(f, d), Kept(f, d))
    ensures UpBy(f, d, Depth(|d|)) == [Root(f, d)]
  {
    hide HashFull;
    KeptFold(f, d);
    HashFullIs(f, empty, d, 0, |d|);
    assert d[0..|d|] == d;
    TopLevel(f, d);
  }

  // ---------- paths ----------

  const LEFT: byte := 0
  const RIGHT: byte := 1
  const MAX_SIZE: nat := 1024 * 1024

  type LeafHash = Bytes -> Uint256

  datatype Entry = Entry(side: byte, hash: Uint256)

  /** The entry for node `m` of a level. */
  function Step(m: nat, d: seq<Uint256>): (e: seq<Entry>)
    requires m < |d|
    ensures |e| <= 1
  {
    if m % 2 == 1 then [Entry(LEFT, d[m - 1])]
    else if m + 1 < |d| then [Entry(RIGHT, d[m + 1])]
    else []
  }

  /** The path of leaf `m`, level by level. */
  function Steps(f: NodeHash, m: nat, d: seq<Uint256>): seq<Entry>
    requires m < |d|
    decreases |d|
  {
    if |d| == 1 then [] else Step(m, d) + Steps(f, m / 2, Up(f, d))
  }

  function Apply(f: NodeHash, e: Entry, h: Uint256): Uint256
  {
    if e.side == LEFT then f(e.hash, h) else f(h, e.hash)
  }

  /** A hash taken up a path. */
  function Rise(f: NodeHash, es: seq<Entry>, h: Uint256): Uint256
  {
    if es == [] then h else Apply(f, es[|es| - 1], Rise(f, es[..|es| - 1], h))
  }

  lemma {:induction false} RiseBoth(f: NodeHash, es: seq<Entry>, gs: seq<Entry>, h: Uint256)
    ensures Rise(f, es + gs, h) == Rise(f, gs, Rise(f, es, h))
    decreases |gs|
  {
    if gs == [] {
      assert es + gs == es;
    } else {
      var n := |gs| - 1;
      RiseBoth(f, es, gs[..n], h);
      assert (es + gs)[..|es| + n] == es + gs[..n];
    }
  }

  lemma RiseOne(f: NodeHash, e: Entry, h: Uint256)
    ensures Rise(f, [e], h) == Apply(f, e, h) && Rise(f, [], h) == h
  {
    assert [e][..0] == [];
  }

  /** The three kinds of node, by the number `j` of the parent. */
  lemma StepIs(m: nat, j: nat, d: seq<Uint256>)
    requires m < |d| && (m == 2 * j || m == 2 * j + 1)
    ensures m == 2 * j + 1 ==> Step(m, d) == [Entry(LEFT, d[2 * j])]
    ensures m == 2 * j && m + 1 < |d| ==> Step(m, d) == [Entry(RIGHT, d[2 * j + 1])]
    ensures m == 2 * j && m + 1 == |d| ==> Step(m, d) == []
  {
  }

  lemma RiseNone(f: NodeHash, h: Uint256)
    ensures Rise(f, [], h) == h
  {
  }

  lemma StepRises(f: NodeHash, m: nat, j: nat, d: seq<Uint256>)
    requires m < |d| && (m == 2 * j || m == 2 * j + 1)
    ensures j < |Up(f, d)| && Rise(f, Step(m, d), d[m]) == Up(f, d)[j]
  {
    hide Up, Rise, Step;
    StepIs(m, j, d);
    UpAt(f, d, j);
    if m == 2 * j + 1 {
      RiseOne(f, Entry(LEFT, d[2 * j]), d[m]);
    } else if m + 1 < |d| {
      RiseOne(f, Entry(RIGHT, d[2 * j + 1]), d[m]);
    } else {
      RiseNone(f, d[m]);
    }
  }

  /** The path of a leaf leads to the root. */
  lemma {:induction false} StepsRise(f: NodeHash, m: nat, d: seq<Uint256>)
    requires m < |d|
    ensures Rise(f, Steps(f, m, d), d[m]) == Root(f, d)
    decreases |d|
  {
    if |d| == 1 {
      assert d == [d[0]];
    } else {
      hide Rise, Step, Root, Up;
      StepRises(f, m, m / 2, d);
      StepsRise(f, m / 2, Up(f, d));
      RiseBoth(f, Step(m, d), Steps(f, m / 2, Up(f, d)), d[m]);
      RootUp(f, d);
    }
  }

  lemma {:induction false} StepsCount(f: NodeHash, m: nat, d: seq<Uint256>, k: nat)
    requires m < |d| <= Pow2(k)
    ensures |Steps(f, m, d)| <= k
    decreases |d|
  {
    if |d| > 1 {
      hide Step, Up;
      StepsCount(f, m / 2, Up(f, d), k - 1);
    }
  }

  /** As large a list as the size limit allows has paths of at most 15 entries. */
  lemma FewSteps(f: NodeHash, m: nat, d: seq<Uint256>)
    requires m < |d| && 33 * |d| <= MAX_SIZE
    ensures |Steps(f, m, d)| <= 15
  {
    assert Pow2(5) == 32;
    assert Pow2(10) == 32 * Pow2(5) by {
      assert Pow2(10) == 2 * (2 * Pow2(8));
      assert Pow2(8) == 2 * (2 * Pow2(6));
    }
    assert Pow2(15) == 32 * Pow2(10) by {
      assert Pow2(15) == 2 * (2 * Pow2(13));
      assert Pow2(13) == 2 * (2 * Pow2(11));
    }
    StepsCount(f, m, d, 15);
  }

  // ---------- paths as bytes ----------

  function EncodeEntries(es: seq<Entry>): (b: Bytes)
    ensures |b| == 33 * |es|
  {
    if es == [] then [] else EncodeEntries(es[..|es| - 1]) + ([es[|es| - 1].side] + es[|es| - 1].hash)
  }

  /** The first `n` entries of the data. */
  function DecodeEntries(n: nat, s: Bytes): (es: seq<Entry>)
    requires 33 * n <= |s|
    ensures |es| == n
  {
    if n == 0 then []
    else
      var at := 33 * (n - 1);
      DecodeEntries(n - 1, s) + [Entry(s[at], s[at + 1..at + 33])]
  }

  lemma UnfoldEntries(n: nat, s: Bytes)
    requires 33 * (n + 1) <= |s|
    ensures var at := 33 * n; DecodeEntries(n + 1, s) == DecodeEntries(n, s) + [Entry(s[at], s[at + 1..at + 33])]
  {
  }

  lemma LastEntry(a: Bytes, n: nat, e: Entry, rest: Bytes)
    requires |a| == 33 * n
    ensures var s := a + ([e.side] + e.hash + rest);
      DecodeEntries(n + 1, s) == DecodeEntries(n, s) + [e]
  {
    hide DecodeEntries;
    var s := a + ([e.side] + e.hash + rest);
    var at := 33 * n;
    assert s[at] == e.side && s[at + 1..at + 33] == e.hash;
    UnfoldEntries(n, s);
  }

  lemma NoEntries(s: Bytes)
    ensures DecodeEntries(0, s) == []
  {
  }

  lemma {:induction false} EntriesRoundTrip(es: seq<Entry>, rest: Bytes)
    ensures DecodeEntries(|es|, EncodeEntries(es) + rest) == es
    decreases |es|
  {
    if es != [] {
      hide DecodeEntries;
      var n := |es| - 1;
      var init, last := es[..n], [es[n].side] + es[n].hash;
      Assoc(EncodeEntries(init), last, rest);
      EntriesRoundTrip(init, last + rest);
      LastEntry(EncodeEntries(init), n, es[n], rest);
      assert es == init + [es[n]];
    } else {
      NoEntries(EncodeEntries(es) + rest);
    }
  }

  /** How many entries are read from `k`. */
  lemma EntriesRead(k: nat, length: nat)
    requires length == 33 * k
    ensures k < 32 ==> length / 32 == k
    ensures k >= 32 ==> 33 * (length / 32) > length
  {
    assert length / 32 == k + k / 32;
  }

  /** One entry is read for every 32 bytes that are left, and an entry takes 33. */
  function ProveValue(f: NodeHash, leaf: LeafHash, data: Bytes, rest: Bytes, root: Uint256): Option<Bytes>
  {
    var size := |rest| / 32;
    if 33 * size > |rest| then None
    else if Rise(f, DecodeEntries(size, rest), leaf(data)) == root then Some(data)
    else None
  }

  /** `MerkleProve` as a function. */
  function Prove(f: NodeHash, leaf: LeafHash, path: Bytes, root: Uint256): Option<Bytes>
  {
    match ReadField(VarBytes, path)
    case None => None
    case Some(d) => ProveValue(f, leaf, d.value.bytes, d.rest, root)
  }

  function EncodePath(data: Bytes, es: seq<Entry>): Bytes
    requires |data| < U64_SIZE
  {
    EncodeField(VarBytes, Raw(data)) + EncodeEntries(es)
  }

  /** A path of fewer than 32 entries proves its value; a longer one never does. */
  lemma ProvePath(f: NodeHash, leaf: LeafHash, data: Bytes, es: seq<Entry>, root: Uint256)
    requires |data| < U64_SIZE
    ensures Prove(f, leaf, EncodePath(data, es), root) ==
      if |es| < 32 && Rise(f, es, leaf(data)) == root then Some(data) else None
  {
    hide ReadField, EncodeField, Rise, DecodeEntries, EncodeEntries;
    var b := EncodeEntries(es);
    FieldRoundTrip(VarBytes, Raw(data), b);
    EntriesRead(|es|, |b|);
    EntriesRoundTrip(es, []);
    assert b + [] == b;
  }

  lemma SizeWithTail(k: nat, t: nat)
    requires k + t < 32
    ensures (33 * k + t) / 32 == k
  {
  }

  /** A few bytes behind the entries are not looked at. */
  lemma ProveTail(f: NodeHash, leaf: LeafHash, data: Bytes, es: seq<Entry>, tail: Bytes, root: Uint256)
    requires |data| < U64_SIZE && |es| + |tail| < 32
    ensures Prove(f, leaf, EncodePath(data, es) + tail, root) ==
      if Rise(f, es, leaf(data)) == root then Some(data) else None
  {
    hide ReadField, EncodeField, Rise, DecodeEntries, EncodeEntries;
    var b := EncodeEntries(es);
    Assoc(EncodeField(VarBytes, Raw(data)), b, tail);
    FieldRoundTrip(VarBytes, Raw(data), b + tail);
    SizeWithTail(|es|, |tail|);
    EntriesRoundTrip(es, tail);
  }

  lemma EntryLast(es: seq<Entry>, e: Entry)
    ensures EncodeEntries(es + [e]) == EncodeEntries(es) + ([e.side] + e.hash)
  {
    assert (es + [e])[..|es|] == es;
  }

  lemma Stretch(s: Bytes, at: nat)
    requires at + 33 <= |s|
    ensures s[..at + 33] == s[..at] + ([s[at]] + s[at + 1..at + 33])
  {
  }

  lemma {:induction false} EntriesReencode(n: nat, s: Bytes)
    requires 33 * n <= |s|
    ensures EncodeEntries(DecodeEntries(n, s)) == s[..33 * n]
  {
    if n > 0 {
      hide DecodeEntries, EncodeEntries;
      var at := 33 * (n - 1);
      EntriesReencode(n - 1, s);
      UnfoldEntries(n - 1, s);
      EntryLast(DecodeEntries(n - 1, s), Entry(s[at], s[at + 1..at + 33]));
      Stretch(s, at);
    } else {
      NoEntries(s);
    }
  }

  lemma TailSize(size: nat, length: nat)
    requires size == length / 32 && 33 * size <= length
    ensures size + (length - 33 * size) < 32
  {
  }

  /** Exactly what is accepted: a value, entries that lead from its hash to the root, and a tail that
      is too short to count. */
  lemma ProveShape(f: NodeHash, leaf: LeafHash, path: Bytes, root: Uint256) returns (es: seq<Entry>, tail: Bytes)
    requires Prove(f, leaf, path, root).Some?
    ensures var data := Prove(f, leaf, path, root).value;
      && |data| < U64_SIZE && |es| + |tail| < 32 && path == EncodePath(data, es) + tail
      && Rise(f, es, leaf(data)) == root
  {
    hide ReadField, EncodeField, Rise, DecodeEntries, EncodeEntries;
    var d := ReadField(VarBytes, path).value;
    FieldReencodes(VarBytes, path);
    var size := |d.rest| / 32;
    TailSize(size, |d.rest|);
    EntriesReencode(size, d.rest);
    es, tail := DecodeEntries(size, d.rest), d.rest[33 * size..];
    assert d.rest == d.rest[..33 * size] + tail;
    Assoc(EncodeField(VarBytes, d.value), EncodeEntries(es), tail);
  }

  /** The path of a member of a list within the size limit proves the member. */
  lemma LeafPathProves(f: NodeHash, leaf: LeafHash, data: Bytes, d: seq<Uint256>, m: nat)
    requires m < |d| && d[m] == leaf(data) && 33 * |d| + |data| + 8 <= MAX_SIZE
    ensures Prove(f, leaf, EncodePath(data, Steps(f, m, d)), Root(f, d)) == Some(data)
  {
    hide Steps, Prove, Root;
    FewSteps(f, m, d);
    StepsRise(f, m, d);
    ProvePath(f, leaf, data, Steps(f, m, d), Root(f, d));
  }

  // ---------- what is proved is a member ----------

  function StepInput(e: Entry, h: Uint256): Pair
  {
    if e.side == LEFT then (e.hash, h) else (h, e.hash)
  }

  /** The inputs hashed on the way up a path. */
  function RiseInputs(f: NodeHash, es: seq<Entry>, h: Uint256): set<Pair>
  {
    if es == [] then {}
    else RiseInputs(f, es[..|es| - 1], h) + {StepInput(es[|es| - 1], Rise(f, es[..|es| - 1], h))}
  }

  /** How a path can lead to the root of a tree from a hash that is not one of its leaves:
      an input of the path collides with one of the tree, or a hash that should be a leaf
      is the hash of an input of the other. */
  datatype Fault = Collision(c: (Pair, Pair)) | StartIsNode(p: Pair) | LeafIsNode(leaf: Uint256, p: Pair)

  predicate IsFault(f: NodeHash, w: Fault, start: Uint256, risen: set<Pair>, t: Tree)
  {
    match w
    case Collision(c) => Collides(f, c) && c.0 in risen && c.1 in Inputs(f, t)
    case StartIsNode(p) => p in Inputs(f, t) && start == f(p.0, p.1)
    case LeafIsNode(l, p) => l in Leaves(t) && p in risen && l == f(p.0, p.1)
  }

  /** The last input hashed on a path, whose hash is where the path leads. */
  function LastInput(f: NodeHash, es: seq<Entry>, start: Uint256): (p: Pair)
    requires es != []
    ensures p in RiseInputs(f, es, start) && Rise(f, es, start) == f(p.0, p.1)
  {
    StepInput(es[|es| - 1], Rise(f, es[..|es| - 1], start))
  }

  lemma {:induction false} RiseFault(f: NodeHash, es: seq<Entry>, start: Uint256, t: Tree) returns (w: Fault)
    requires Rise(f, es, start) == Hash(f, t) && start !in Leaves(t)
    ensures IsFault(f, w, start, RiseInputs(f, es, start), t)
    decreases t
  {
    match t
    case Leaf(h) =>
      assert h in Leaves(t);
      w := LeafIsNode(h, LastInput(f, es, start));
    case Node(l, r) =>
      var top := (Hash(f, l), Hash(f, r));
      if es == [] {
        w := StartIsNode(top);
      } else {
        var p := LastInput(f, es, start);
        if p != top {
          w := Collision((p, top));
        } else {
          w := RiseFault(f, es[..|es| - 1], start, if es[|es| - 1].side == LEFT then r else l);
        }
      }
  }

  function LeafHashes(leaf: LeafHash, values: seq<Bytes>): (d: seq<Uint256>)
    ensures |d| == |values| && forall i :: 0 <= i < |values| ==> d[i] == leaf(values[i])
  {
    seq(|values|, i requires 0 <= i < |values| => leaf(values[i]))
  }

  /** The inputs that `MerkleProve` hashes. */
  function Proved(f: NodeHash, leaf: LeafHash, path: Bytes): set<Pair>
    requires ReadField(VarBytes, path).Some?
  {
    var d := ReadField(VarBytes, path).value;
    var size := |d.rest| / 32;
    if 33 * size > |d.rest| then {} else RiseInputs(f, DecodeEntries(size, d.rest), leaf(d.value.bytes))
  }

  /** A break of the hashing: a collision of interior inputs, or a value whose leaf hash is
      an interior hash. */
  datatype Break = PairCollision(c: (Pair, Pair)) | LeafPreimage(x: Bytes, p: Pair)

  /** The break is among the values, the inputs of the tree and the inputs of the path. */
  ghost predicate IsBreak(f: NodeHash, leaf: LeafHash, w: Break, value: Bytes, values: seq<Bytes>, proved: set<Pair>)
    requires |values| > 0
  {
    var inputs := Inputs(f, TreeOf(LeafHashes(leaf, values)));
    match w
    case PairCollision(c) => Collides(f, c) && c.0 in proved && c.1 in inputs
    case LeafPreimage(x, p) => leaf(x) == f(p.0, p.1) && ((x == value && p in inputs) || (x in values && p in proved))
  }

  /** A path that is accepted against the root of the leaf hashes of some values proves that
      the leaf hash of its value is among them, or it exhibits a break of the hashing. */
  lemma ProveSound(f: NodeHash, leaf: LeafHash, path: Bytes, values: seq<Bytes>) returns (w: Break)
    requires |values| > 0
    ensures var d := LeafHashes(leaf, values);
      var r := Prove(f, leaf, path, Root(f, d));
      r.Some? ==> leaf(r.value) in d || IsBreak(f, leaf, w, r.value, values, Proved(f, leaf, path))
  {
    hide ReadField, Rise, DecodeEntries, RiseInputs, Inputs, TreeOf, Leaves, Hash;
    var d := LeafHashes(leaf, values);
    var r := Prove(f, leaf, path, Root(f, d));
    w := LeafPreimage([], (EMPTY_HASH, EMPTY_HASH));
    if r.Some? && leaf(r.value) !in d {
      var rest := ReadField(VarBytes, path).value.rest;
      var fault := RiseFault(f, DecodeEntries(|rest| / 32, rest), leaf(r.value), TreeOf(d));
      match fault
      case Collision(c) => w := PairCollision(c);
      case StartIsNode(p) => w := LeafPreimage(r.value, p);
      case LeafIsNode(l, p) =>
        var i :| 0 <= i < |d| && d[i] == l;
        w := LeafPreimage(values[i], p);
    }
  }

  // ---------- as the source runs it ----------

  method WriteEntry(sink: ZeroCopySink, e: Entry)
    requires sink.Valid()
    modifies sink, sink.buf
    ensures sink.Valid() && sink.Contents() == old(sink.Contents()) + ([e.side] + e.hash)
    ensures sink.buf == old(sink.buf) || fresh(sink.buf)
  {
    hide Holds, Encode;
    ghost var was := sink.Contents();
    sink.Mark();
    sink.WriteByte(e.side);
    sink.WriteBytes(e.hash);
    assert sink.fields == [Fixed(1), Fixed(32)] && sink.vals == [Raw([e.side]), Raw(e.hash)];
    EncodeOne(Fixed(1), Raw([e.side]));
    EncodeOne(Fixed(32), Raw(e.hash));
    EncodeBoth([Fixed(1)], [Raw([e.side])], [Fixed(32)], [Raw(e.hash)]);
    assert [Fixed(1)] + [Fixed(32)] == [Fixed(1), Fixed(32)];
    assert [Raw([e.side])] + [Raw(e.hash)] == [Raw([e.side]), Raw(e.hash)];
    HoldsOnly(sink.Contents(), was, sink.fields, sink.vals);
  }

  method WriteValue(data: Bytes, size: nat) returns (sink: ZeroCopySink)
    requires |data| < U64_SIZE
    ensures fresh(sink) && fresh(sink.buf) && sink.Valid() && sink.Contents() == EncodePath(data, [])
  {
    hide Holds, Encode, EncodeField;
    sink := new ZeroCopySink(size);
    var n := sink.WriteVarBytes(data);
    assert sink.fields == [VarBytes] && sink.vals == [Raw(data)];
    EncodeOne(VarBytes, Raw(data));
    HoldsOnly(sink.Contents(), [], sink.fields, sink.vals);
  }

  method GetIndex(leaf: Uint256, hashes: seq<Uint256>) returns (index: Option<nat>)
    ensures index.None? <==> leaf !in hashes
    ensures index.Some? ==> index.value < |hashes| && hashes[index.value] == leaf && leaf !in hashes[..index.value]
  {
    for i := 0 to |hashes|
      invariant leaf !in hashes[..i]
    {
      if hashes[i] == leaf {
        return Some(i);
      }
    }
    index := None;
  }

  lemma SingleLevel(f: NodeHash, level: seq<Uint256>)
    requires |level| == 1
    ensures Up(f, level) == level && Step(0, level) == []
  {
  }

  lemma {:induction false} UpByOne(f: NodeHash, d: seq<Uint256>, m: nat, k: nat)
    requires m < |UpBy(f, d, k)|
    ensures m / 2 < |UpBy(f, d, k + 1)|
    ensures Steps(f, m, UpBy(f, d, k)) == Step(m, UpBy(f, d, k)) + Steps(f, m / 2, UpBy(f, d, k + 1))
  {
    hide Up, UpBy, Step;
    UpByNext(f, d, k);
    var level := UpBy(f, d, k);
    if |level| == 1 { SingleLevel(f, level); }
  }

  /** A last node without neighbour has no entry. */
  method OneStep(index: nat, level: seq<Uint256>) returns (e: Option<Entry>)
    requires index < |level|
    ensures Step(index, level) == if e.None? then [] else [e.value]
  {
    if index == |level| - 1 && |level| % 2 != 0 {
      return None;
    }
    if index % 2 != 0 {
      return Some(Entry(LEFT, level[index - 1]));
    }
    e := Some(Entry(RIGHT, level[index + 1]));
  }

  lemma NoLevels(f: NodeHash, d: seq<Uint256>)
    ensures UpBy(f, d, 0) == d
  {
  }

  lemma NoSteps(f: NodeHash, d: seq<Uint256>)
    requires |d| == 1
    ensures Steps(f, 0, d) == []
  {
  }

  lemma PathNext(data: Bytes, es: seq<Entry>, e: Entry)
    requires |data| < U64_SIZE
    ensures EncodePath(data, es + [e]) == EncodePath(data, es) + ([e.side] + e.hash)
  {
    hide EncodeField;
    assert (es + [e])[..|es|] == es;
    Assoc(EncodeField(VarBytes, Raw(data)), EncodeEntries(es), [e.side] + e.hash);
  }

  /** The entry of one level. */
  method WriteStep(sink: ZeroCopySink, index: nat, level: seq<Uint256>, data: Bytes, ghost es: seq<Entry>)
    requires sink.Valid() && index < |level| && |data| < U64_SIZE && sink.Contents() == EncodePath(data, es)
    modifies sink, sink.buf
    ensures sink.Valid() && sink.Contents() == EncodePath(data, es + Step(index, level))
    ensures sink.buf == old(sink.buf) || fresh(sink.buf)
  {
    hide Holds, Step, EncodePath;
    var step := OneStep(index, level);
    if step.Some? {
      WriteEntry(sink, step.value);
      PathNext(data, es, step.value);
    } else {
      assert es + [] == es;
    }
  }

  /** The entries of all levels, from the leaves up. */
  method WriteSteps(f: NodeHash, sink: ZeroCopySink, hashes: seq<Uint256>, m: nat, data: Bytes)
    requires sink.Valid() && m < |hashes| && |data| < U64_SIZE && sink.Contents() == EncodePath(data, [])
    modifies sink, sink.buf
    ensures sink.Valid() && sink.Contents() == EncodePath(data, Steps(f, m, hashes))
  {
    hide Holds, Steps, Step, UpBy, Up, EncodePath, Root, Depth;
    var d := Depth(|hashes|);
    var levels := MerkleHashes(f, hashes, d);
    ghost var es: seq<Entry> := [];
    var i: nat, index: nat := d, m;
    NoLevels(f, hashes);
    while i > 0
      invariant 0 <= i <= d && index < |UpBy(f, hashes, d - i)| && sink.Valid()
      invariant es + Steps(f, index, UpBy(f, hashes, d - i)) == Steps(f, m, hashes)
      invariant sink.Contents() == EncodePath(data, es) && (sink.buf == old(sink.buf) || fresh(sink.buf))
    {
      var level := levels[i];
      UpByOne(f, hashes, index, d - i);
      WriteStep(sink, index, level, data, es);
      Assoc(es, Step(index, level), Steps(f, index / 2, UpBy(f, hashes, d - i + 1)));
      es := es + Step(index, level);
      i, index := i - 1, index / 2;
    }
    TopLevel(f, hashes);
    NoSteps(f, UpBy(f, hashes, d));
    assert es + [] == es;
  }

  /** `MerkleLeafPath`: exists exactly for members of lists within the size limit, and
      proves them. */
  method MerkleLeafPath(f: NodeHash, leaf: LeafHash, data: Bytes, hashes: seq<Uint256>) returns (path: Option<Bytes>)
    ensures path.Some? <==> 33 * |hashes| + |data| + 8 <= MAX_SIZE && leaf(data) in hashes
    ensures path.Some? ==> |hashes| > 0 && Prove(f, leaf, path.value, Root(f, hashes)) == Some(data)
  {
    hide Prove, Root, Steps;
    var size := |hashes| * (UINT256_SIZE + 1) + |data| + 8;
    if size > MAX_SIZE {
      return None;
    }
    var index := GetIndex(leaf(data), hashes);
    if index.None? {
      return None;
    }
    var sink := WriteValue(data, size);
    WriteSteps(f, sink, hashes, index.value, data);
    LeafPathProves(f, leaf, data, hashes, index.value);
    path := Some(sink.buf[..sink.len]);
  }

  lemma NoRise(f: NodeHash, s: Bytes, h: Uint256)
    ensures Rise(f, DecodeEntries(0, s), h) == h
  {
  }

  lemma RiseNext(f: NodeHash, n: nat, s: Bytes, h: Uint256)
    requires 33 * (n + 1) <= |s|
    ensures var at := 33 * n;
      Rise(f, DecodeEntries(n + 1, s), h) == Apply(f, Entry(s[at], s[at + 1..at + 33]), Rise(f, DecodeEntries(n, s), h))
  {
    hide DecodeEntries;
    UnfoldEntries(n, s);
    var at := 33 * n;
    var es := DecodeEntries(n, s);
    assert (es + [Entry(s[at], s[at + 1..at + 33])])[..n] == es;
  }

  /** The entries of a path, applied as they are read. */
  method RiseThrough(f: NodeHash, source: WireSource.ZeroCopySource, start: Uint256, size: nat)
    returns (hash: Option<Uint256>)
    requires source.off <= |source.s| < U64_SIZE / 2
    modifies source`off
    ensures var rest := old(source.Rest());
      hash == if 33 * size > |rest| then None else Some(Rise(f, DecodeEntries(size, rest), start))
  {
    hide Rise, DecodeEntries;
    var at := source.off;
    ghost var rest := source.Rest();
    var h := start;
    NoRise(f, rest, h);
    for i := 0 to size
      invariant source.off == at + 33 * i <= |source.s| && h == Rise(f, DecodeEntries(i, rest), start)
    {
      var side, v, eof;
      side, eof := source.SliceByte();
      if eof {
        return None;
      }
      v, eof := source.Slice(32);
      if eof {
        return None;
      }
      RiseNext(f, i, rest, start);
      assert rest[33 * i] == side && rest[33 * i + 1..33 * i + 33] == v;
      h := if side == LEFT then f(v, h) else f(h, v);
    }
    hash := Some(h);
  }

  method ProveRest(f: NodeHash, leaf: LeafHash, source: WireSource.ZeroCopySource, data: Bytes, root: Uint256)
    returns (value: Option<Bytes>)
    requires source.off <= |source.s| < U64_SIZE / 2
    modifies source`off
    ensures value == ProveValue(f, leaf, data, old(source.Rest()), root)
  {
    hide Rise, DecodeEntries;
    var size := (|source.s| - source.off) / 32;
    var hash := RiseThrough(f, source, leaf(data), size);
    if hash.None? || hash.value != root {
      return None;
    }
    value := Some(data);
  }

  /** `MerkleProve`. */
  method MerkleProve(f: NodeHash, leaf: LeafHash, path: Bytes, root: Uint256) returns (value: Option<Bytes>)
    requires |path| < U64_SIZE / 2
    ensures value == Prove(f, leaf, path, root)
  {
    hide ReadField, ProveValue, WireSource.Tells;
    var source := new WireSource.ZeroCopySource(path);
    var data := NextItem(source);
    if data.None? {
      return None;
    }
    value := ProveRest(f, leaf, source, data.value, root);
  }
}
