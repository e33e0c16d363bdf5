/** merkle/file_hash_store.go: the hash file as a sequence of 32-byte entries with a
    write cursor, and the position arithmetic over it (merkle/merkle_tree.go). */
module MerkleStore {
  import opened Common
  import opened Bits
  import opened MerkleSpec

  /** The bits of `n` shifted out so far are `low`; `m` is left, in units of `p`. */
  ghost predicate Shifted(n: nat, m: nat, p: nat, low: nat)
  {
    Perfect(p) && low < p && n == m * p + low < U32_SIZE
  }

  lemma SubTreeSizeStart()
    ensures Perfect(1) && SubTreeSize(0) == []
  {
  }

  lemma U32Double(p: nat)
    requires 0 < 2 * p <= U32_SIZE
    ensures U32(U32(p) * 2) == U32(2 * p) && U32(U32(2 * p) - 1) == 2 * p - 1
  {
    if 2 * p < U32_SIZE {
      assert U32(2 * p) == 2 * p;
    }
  }

  lemma {:induction false} Pow2Sum(a: nat, b: nat)
    ensures Pow2(a + b) == Pow2(a) * Pow2(b)
  {
    if a > 0 { Pow2Sum(a - 1, b); }
  }

  lemma U32SizeIsPerfect()
    ensures Perfect(U32_SIZE)
  {
    hide Perfect;
    assert Pow2(8) == 256;
    Pow2Sum(8, 8);
    Pow2Sum(16, 16);
    PerfectIsPow2(U32_SIZE);
  }

  /** While a bit is left, the current power of two is at most 2^31. */
  lemma ShiftFits(m: nat, p: nat, n: nat)
    requires m > 0 && Perfect(p) && m * p <= n < U32_SIZE
    ensures 2 * p <= U32_SIZE
  {
    hide Perfect, Multiple;
    assert m * p == p + (m - 1) * p;
    assert (m - 1) * p >= 0;
    U32SizeIsPerfect();
    PerfectOrder(p, U32_SIZE);
  }

  lemma ShiftOne(n: nat, m: nat, p: nat, low: nat)
    requires Shifted(n, m, p, low) && m > 0
    ensures Shifted(n, m / 2, 2 * p, if m % 2 == 1 then low + p else low)
    ensures U32(U32(p) * 2) == U32(2 * p) && U32(U32(2 * p) - 1) == 2 * p - 1
  {
    hide Perfect;
    PerfectDouble(p);
    var h, b := m / 2, m % 2;
    HalfTimes(m, h, b, p);
    ShiftFits(m, p, n);
    U32Double(p);
  }

  /** A power of two above `low` is the first full subtree. */
  lemma SubTreeSizeHigh(p: nat, low: nat)
    requires Perfect(p) && low < p
    ensures SubTreeSize(p + low) == [2 * p - 1] + SubTreeSize(low)
  {
    if low > 0 {
      SplitAt(p + low, p);
      assert p + low != 2 * p;
    }
  }

  /** `getSubTreeSize`: filled from the back while the bits of `n` are shifted out. */
  method GetSubTreeSize(n: nat) returns (sizes: seq<nat>)
    requires n < U32_SIZE
    ensures sizes == SubTreeSize(n)
  {
    hide SubTreeSize, Perfect;
    SubTreeSizeSum(n);
    SubTreeSizeStart();
    var count: int := CountBit(n);
    sizes := seq(count, _ => 0);
    var i := count - 1;
    var id: nat, m: nat := 1, n;
    ghost var p: nat, low: nat := 1, 0;
    while m != 0
      invariant 0 <= i + 1 <= |sizes| && i + 1 == CountBit(m)
      invariant Shifted(n, m, p, low) && id == U32(p)
      invariant sizes[i + 1..] == SubTreeSize(low)
      decreases m
    {
      ShiftOne(n, m, p, low);
      id := U32(id * 2);
      if m % 2 == 1 {
        SubTreeSizeHigh(p, low);
        sizes := sizes[i := U32(id - 1)];
        low := low + p;
        i := i - 1;
      }
      p := 2 * p;
      m := m / 2;
    }
  }

  /** `getStoredHashNum`. */
  method GetStoredHashNum(treeSize: nat) returns (sum: nat)
    requires treeSize < U32_SIZE
    ensures sum == 2 * treeSize - CountBit(treeSize)
  {
    var sizes := GetSubTreeSize(treeSize);
    SubTreeSizeSum(treeSize);
    sum := 0;
    var k := 0;
    while k < |sizes|
      invariant 0 <= k <= |sizes| && sum + Sum(sizes[k..]) == Sum(sizes)
    {
      assert sizes[k..][1..] == sizes[k + 1..];
      sum := sum + sizes[k];
      k := k + 1;
    }
  }

  const MAX_TREE := 0x8000_0000

  lemma {:induction false} PositionCount(n: nat, offset: nat)
    ensures |SubTreePos(n, offset)| == CountBit(n)
    decreases n
  {
    PerfectCount(n);
    if n > 0 && !Perfect(n) {
      CountBitSplit(n);
      PositionCount(n - Split(n), offset + 2 * Split(n) - 1);
    }
  }

  lemma FirstPosition(n: nat, offset: nat)
    requires n > 0
    ensures |SubTreePos(n, offset)| > 0 && |SubTreeSize(n)| > 0
    ensures SubTreePos(n, offset)[0] == offset + SubTreeSize(n)[0]
  {
  }

  lemma {:induction false} PositionBound(n: nat, offset: nat, i: nat)
    requires i < |SubTreePos(n, offset)|
    ensures offset < SubTreePos(n, offset)[i] < offset + 2 * n
    decreases n
  {
    if !Perfect(n) && i > 0 {
      PositionBound(n - Split(n), offset + 2 * Split(n) - 1, i - 1);
    }
  }

  /** Every position is the one before plus its own size, and none exceeds `2n`. */
  lemma {:induction false} NextPosition(n: nat, offset: nat, i: nat)
    requires 0 < i < |SubTreePos(n, offset)| == |SubTreeSize(n)|
    ensures SubTreePos(n, offset)[i] == SubTreePos(n, offset)[i - 1] + SubTreeSize(n)[i] < offset + 2 * n
    decreases n
  {
    var k := Split(n);
    var p := offset + 2 * k - 1;
    if i > 1 {
      NextPosition(n - k, p, i - 1);
    } else {
      FirstPosition(n - k, p);
      PositionBound(n - k, p, 0);
    }
  }

  /** `getSubTreePos`: the sizes summed up in place. */
  method GetSubTreePos(n: nat) returns (pos: seq<nat>)
    requires n < MAX_TREE
    ensures pos == SubTreePos(n, 0)
  {
    pos := GetSubTreeSize(n);
    ghost var sizes := pos;
    PositionCount(n, 0);
    SubTreeSizeSum(n);
    if |pos| > 0 { FirstPosition(n, 0); }
    var i := 1;
    while i < |pos|
      invariant |pos| == |SubTreePos(n, 0)| == |sizes| && 1 <= i && (i <= |pos| || |pos| == 0)
      invariant forall k :: 0 <= k < i && k < |pos| ==> pos[k] == SubTreePos(n, 0)[k]
      invariant forall k :: i <= k < |pos| ==> pos[k] == sizes[k]
    {
      NextPosition(n, 0, i);
      pos := pos[i := U32(pos[i] + pos[i - 1])];
      i := i + 1;
    }
  }

  datatype Opened = Opened(store: FileHashStore) | TooFewHashes

  /** The open hash file: entries are written at the cursor and read anywhere. */
  class FileHashStore {
    var file: seq<Uint256>
    var cursor: nat

    ghost predicate Valid()
      reads this
    {
      cursor <= |file|
    }

    /** The live entries. What lies beyond is left over from an earlier, longer log. */
    ghost function Live(): seq<Uint256>
      reads this
      requires Valid()
    {
      file[..cursor]
    }

    constructor (file: seq<Uint256>, cursor: nat)
      requires cursor <= |file|
      ensures Valid() && this.file == file && this.cursor == cursor
    {
      this.file, this.cursor := file, cursor;
    }

    /** `NewFileHashStore`: refuses a file that is too short for `treeSize` leaves, and
        continues writing where a log of that size ends. */
    static method Open(file: seq<Uint256>, treeSize: nat) returns (r: Opened)
      requires treeSize < U32_SIZE
      ensures r.TooFewHashes? <==> |file| < 2 * treeSize - CountBit(treeSize)
      ensures r.Opened? ==>
        fresh(r.store) && r.store.Valid() && r.store.file == file &&
        r.store.cursor == 2 * treeSize - CountBit(treeSize)
    {
      var num := GetStoredHashNum(treeSize);
      if |file| < num { return TooFewHashes; }
      var store := new FileHashStore(file, num);
      return Opened(store);
    }

    method Append(hashes: seq<Uint256>)
      requires Valid()
      modifies this
      ensures Valid() && Live() == old(Live()) + hashes
      ensures file[cursor..] == if |old(file)| > cursor then old(file)[cursor..] else []
    {
      var end := cursor + |hashes|;
      file := file[..cursor] + hashes + (if |file| > end then file[end..] else []);
      cursor := end;
    }

    /** An entry past the end of the file reads as the empty hash. */
    method GetHash(pos: nat) returns (hash: Uint256)
      ensures hash == if pos < |file| then file[pos] else EMPTY_HASH
    {
      if pos < |file| { return file[pos]; }
      return EMPTY_HASH;
    }
  }
}
