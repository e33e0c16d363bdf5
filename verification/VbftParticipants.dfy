/** Participant selection of consensus/vbft/node_utils.go. */
module VbftParticipants {
  import opened Common
  import opened Bits
  import Sets

  const MAX_UINT32 := 0xFFFF_FFFF
  const VRF_SIZE := 64

  type Vrf = v: seq<byte> | |v| == VRF_SIZE witness seq(VRF_SIZE, _ => 0)

  datatype ChainConfig = ChainConfig(n: nat, c: nat, posTable: seq<nat>, peers: seq<nat>)

  function Configured(chain: ChainConfig): set<nat>
  {
    set p | p in chain.peers
  }

  /** `calcParticipant`: 16 bits of the VRF value from bit `k` on pick a table entry;
      there are 512 of them. */
  function CalcParticipant(vrf: Vrf, posTable: seq<nat>, k: nat): (peer: nat)
    requires |posTable| > 0
    ensures peer == MAX_UINT32 || peer in posTable
    ensures k >= 512 ==> peer == MAX_UINT32
  {
    if k >= 512 then MAX_UINT32
    else
      var index, bits := k / 8, k % 8;
      var low := vrf[index] / Pow2(bits);
      var high := if index + 1 < |vrf| then vrf[index + 1] else vrf[0];
      var v := U32(high * Pow2(8 - bits) + low);
      posTable[v % |posTable|]
  }

  lemma Pow2Parts(bits: nat)
    requires bits < 8
    ensures Pow2(bits) * Pow2(8 - bits) == 256 && 0 < Pow2(bits) <= 128
  {
    assert Pow2(0) == 1 && Pow2(1) == 2 && Pow2(2) == 4 && Pow2(3) == 8;
    assert Pow2(4) == 2 * Pow2(3) && Pow2(5) == 2 * Pow2(4) && Pow2(6) == 2 * Pow2(5) && Pow2(7) == 2 * Pow2(6);
    assert Pow2(8) == 2 * Pow2(7);
  }

  lemma Quotient(a: nat, p: nat, x: nat)
    requires p > 0 && x == a / p
    ensures x * p <= a < x * p + p
  {
  }

  lemma Regroup(b: nat, p: nat, q: nat, x: nat)
    ensures (b * q + x) * p == b * (p * q) + x * p
  {
  }

  /** Shifting two bytes right is shifting the low one right and the high one left. */
  lemma ShiftPair(a: nat, b: nat, p: nat, q: nat, x: nat, w: nat)
    requires p > 0 && p * q == 256 && x == a / p && w == b * q + x
    ensures w * p <= a + 256 * b < (w + 1) * p
  {
    Quotient(a, p, x);
    Regroup(b, p, q, x);
    assert (w + 1) * p == w * p + p;
  }

  lemma AtLeastOnce(w: nat, p: nat)
    requires p > 0
    ensures w * p >= w
  {
  }

  lemma PairBound(a: nat, b: nat, p: nat, w: nat)
    requires a < 256 && b < 256 && p > 0 && w * p <= a + 256 * b
    ensures w < 65536
  {
    AtLeastOnce(w, p);
  }

  lemma PickNumber(a: nat, b: nat, p: nat, q: nat, x: nat) returns (w: nat)
    requires a < 256 && b < 256 && p > 0 && p * q == 256 && x == a / p
    ensures w == b * q + x < 65536
    ensures w * p <= a + 256 * b < (w + 1) * p
  {
    w := b * q + x;
    ShiftPair(a, b, p, q, x, w);
    PairBound(a, b, p, w);
  }

  lemma Picking(vrf: Vrf, posTable: seq<nat>, k: nat, index: nat, bits: nat) returns (p: nat, q: nat, x: nat)
    requires |posTable| > 0 && k < 512 && index == k / 8 && bits == k % 8 && Pow2(bits) > 0
    ensures p == Pow2(bits) && q == Pow2(8 - bits) && x == vrf[index] / p
    ensures var w := (if index == 63 then vrf[0] else vrf[index + 1]) * q + x;
      w < 65536 ==> CalcParticipant(vrf, posTable, k) == posTable[w % |posTable|]
  {
    hide Pow2;
    p, q, x := Pow2(bits), Pow2(8 - bits), vrf[index] / Pow2(bits);
  }

  /** The number that picks is the 16 bits of the VRF value from bit `k` on: a byte, the next one
      (after the last the first), shifted right. */
  lemma ParticipantBits(vrf: Vrf, posTable: seq<nat>, k: nat) returns (w: nat)
    requires |posTable| > 0 && k < 512
    ensures var a, b := vrf[k / 8], if k / 8 == 63 then vrf[0] else vrf[k / 8 + 1];
      w * Pow2(k % 8) <= a + 256 * b < (w + 1) * Pow2(k % 8)
    ensures CalcParticipant(vrf, posTable, k) == posTable[w % |posTable|]
  {
    hide CalcParticipant, Pow2;
    var index, bits := k / 8, k % 8;
    var a, b := vrf[index], if index == 63 then vrf[0] else vrf[index + 1];
    Pow2Parts(bits);
    var p, q, x := Picking(vrf, posTable, k, index, bits);
    w := PickNumber(a, b, p, q, x);
  }

  /** The entries without repetition, in the order in which they first occur. */
  function Firsts(entries: seq<nat>): seq<nat>
  {
    if entries == [] then []
    else
      var n := |entries| - 1;
      var r := Firsts(entries[..n]);
      if entries[n] in entries[..n] then r else r + [entries[n]]
  }

  lemma {:induction false} FirstsOf(entries: seq<nat>)
    ensures var r := Firsts(entries); Distinct(r) && forall p :: p in r <==> p in entries
  {
    if entries != [] {
      FirstsOf(entries[..|entries| - 1]);
    }
  }

  lemma FirstsNext(entries: seq<nat>, x: nat)
    ensures var r := Firsts(entries); Firsts(entries + [x]) == if x in r then r else r + [x]
  {
    assert (entries + [x])[..|entries|] == entries;
    FirstsOf(entries);
  }

  /** An entry comes before another exactly when it first occurs before it. */
  lemma {:induction false} FirstsInOrder(entries: seq<nat>, i: nat, j: nat)
    requires i < j < |Firsts(entries)|
    ensures var r := Firsts(entries);
      exists k :: 0 <= k < |entries| && entries[k] == r[i] && r[j] !in entries[..k + 1]
  {
    var n := |entries| - 1;
    var r := Firsts(entries[..n]);
    FirstsOf(entries[..n]);
    if j < |r| {
      FirstsInOrder(entries[..n], i, j);
      var k :| 0 <= k < n && entries[..n][k] == r[i] && r[j] !in entries[..n][..k + 1];
      assert entries[..n][..k + 1] == entries[..k + 1];
      assert entries[k] == Firsts(entries)[i];
    } else {
      assert r[i] in entries[..n];
      var k :| 0 <= k < n && entries[..n][k] == r[i];
      assert entries[k] == Firsts(entries)[i];
      assert forall x :: x in entries[..k + 1] ==> x in entries[..n];
    }
  }

  /** The entries that the first `k` positions of the VRF value pick. */
  function Entries(vrf: Vrf, posTable: seq<nat>, k: nat): (es: seq<nat>)
    requires k <= |posTable|
    ensures |es| == k && forall i :: 0 <= i < k ==> es[i] == CalcParticipant(vrf, posTable, i)
  {
    seq(k, i requires 0 <= i < k => CalcParticipant(vrf, posTable, i))
  }

  lemma EntriesNext(vrf: Vrf, posTable: seq<nat>, k: nat)
    requires k < |posTable|
    ensures Entries(vrf, posTable, k + 1) == Entries(vrf, posTable, k) + [CalcParticipant(vrf, posTable, k)]
  {
  }

  /** So many peers are enough. */
  predicate Enough(peers: nat, chain: ChainConfig)
  {
    peers > 5 * chain.c + 3 || peers == chain.n
  }

  /** The selection looks at this many positions: it stops at the end, at no entry, or as soon as
      it has enough. */
  ghost predicate Looks(vrf: Vrf, chain: ChainConfig, k: nat)
  {
    && k <= |chain.posTable|
    && (forall i :: 0 <= i < k ==> CalcParticipant(vrf, chain.posTable, i) != MAX_UINT32)
    && (forall i :: 0 < i < k ==> !Enough(|Firsts(Entries(vrf, chain.posTable, i))|, chain))
    && (|| k == |chain.posTable| || CalcParticipant(vrf, chain.posTable, k) == MAX_UINT32
        || (k > 0 && Enough(|Firsts(Entries(vrf, chain.posTable, k))|, chain)))
  }

  ghost predicate Selected(peers: seq<nat>, peerMap: set<nat>)
  {
    (forall p :: p in peerMap <==> p in peers) && |peerMap| == |peers|
  }

  lemma Select(peers: seq<nat>, peerMap: set<nat>, peer: nat)
    requires Selected(peers, peerMap) && peer !in peerMap
    ensures Selected(peers + [peer], peerMap + {peer})
  {
  }

  lemma EntryInTable(vrf: Vrf, posTable: seq<nat>, k: nat)
    requires k < |posTable|
    ensures var peer := CalcParticipant(vrf, posTable, k); peer == MAX_UINT32 || peer in posTable
  {
  }

  /** One more entry is looked at. */
  lemma LookOn(vrf: Vrf, posTable: seq<nat>, k: nat)
    requires k < |posTable|
    ensures var peer, r := CalcParticipant(vrf, posTable, k), Firsts(Entries(vrf, posTable, k));
      Firsts(Entries(vrf, posTable, k + 1)) == if peer in r then r else r + [peer]
  {
    hide CalcParticipant, Firsts;
    EntriesNext(vrf, posTable, k);
    FirstsNext(Entries(vrf, posTable, k), CalcParticipant(vrf, posTable, k));
  }

  lemma NoneYet(vrf: Vrf, posTable: seq<nat>)
    ensures Firsts(Entries(vrf, posTable, 0)) == []
  {
  }

  lemma NoneSelected()
    ensures Selected([], {})
  {
  }

  lemma Known(peers: seq<nat>, peerMap: set<nat>, peer: nat)
    requires Selected(peers, peerMap)
    ensures (peer in peerMap <==> peer in peers) && |peerMap| == |peers|
  {
  }

  /** The peers that the table names, in the order of selection. */
  method SelectFromTable(vrf: Vrf, chain: ChainConfig)
    returns (peers: seq<nat>, peerMap: set<nat>, ghost looked: nat)
    ensures Looks(vrf, chain, looked) && peers == Firsts(Entries(vrf, chain.posTable, looked))
    ensures Selected(peers, peerMap) && |peers| <= 5 * chain.c + 4
    ensures forall p :: p in peers ==> p in chain.posTable
  {
    hide CalcParticipant, Firsts, Entries, Selected;
    NoneYet(vrf, chain.posTable);
    peers, peerMap := [], {};
    assert Selected(peers, peerMap) by { NoneSelected(); }
    var i := 0;
    while i < |chain.posTable|
      invariant 0 <= i <= |chain.posTable| && peers == Firsts(Entries(vrf, chain.posTable, i))
      invariant Selected(peers, peerMap) && |peers| <= 5 * chain.c + 3
      invariant forall k :: 0 <= k < i ==> CalcParticipant(vrf, chain.posTable, k) != MAX_UINT32
      invariant forall k :: 0 < k <= i ==> !Enough(|Firsts(Entries(vrf, chain.posTable, k))|, chain)
      invariant forall p :: p in peers ==> p in chain.posTable
    {
      var peer := CalcParticipant(vrf, chain.posTable, i);
      looked := i;
      if peer == MAX_UINT32 { return; }
      looked := i + 1;
      EntryInTable(vrf, chain.posTable, i);
      LookOn(vrf, chain.posTable, i);
      Known(peers, peerMap, peer);
      if peer !in peerMap {
        Select(peers, peerMap, peer);
        peers, peerMap := peers + [peer], peerMap + {peer};
        Known(peers, peerMap, peer);
        if |peerMap| > (chain.c + 1) + (2 * chain.c + 1) * 2 || |peerMap| == chain.n { return; }
      }
      i := i + 1;
    }
    looked := i;
  }

  /** The configured peers fill up what is named until there are enough: `looked` of them. */
  ghost predicate Fills(named: seq<nat>, chain: ChainConfig, looked: nat)
  {
    && looked <= |chain.peers|
    && (forall i :: 0 < i < looked ==> |Firsts(named + chain.peers[..i])| <= 3 * chain.c)
    && (looked == |chain.peers| || (looked > 0 && |Firsts(named + chain.peers[..looked])| > 3 * chain.c))
  }

  lemma FirstsOfDistinct(s: seq<nat>)
    requires Distinct(s)
    ensures Firsts(s) == s
  {
    if s != [] {
      FirstsOfDistinct(s[..|s| - 1]);
    }
  }

  lemma FillOn(named: seq<nat>, peers: seq<nat>, k: nat)
    requires k < |peers|
    ensures var r := Firsts(named + peers[..k]);
      Firsts(named + peers[..k + 1]) == if peers[k] in r then r else r + [peers[k]]
  {
    assert named + peers[..k + 1] == named + peers[..k] + [peers[k]];
    FirstsNext(named + peers[..k], peers[k]);
  }

  lemma AllConfigured(named: seq<nat>, peerMap: set<nat>, chain: ChainConfig)
    requires Selected(Firsts(named + chain.peers), peerMap)
    ensures |Configured(chain)| <= |peerMap|
  {
    FirstsOf(named + chain.peers);
    Sets.SubsetSize(Configured(chain), peerMap);
  }

  method FillUp(named: seq<nat>, namedMap: set<nat>, chain: ChainConfig) returns (peers: seq<nat>, ghost looked: nat)
    requires Distinct(named) && Selected(named, namedMap) && |named| <= 3 * chain.c
    ensures Fills(named, chain, looked) && peers == Firsts(named + chain.peers[..looked])
    ensures |peers| <= 3 * chain.c + 1
    ensures |Configured(chain)| > 3 * chain.c ==> |peers| > 3 * chain.c
  {
    hide Firsts, Selected;
    FirstsOfDistinct(named);
    assert named + chain.peers[..0] == named;
    peers := named;
    var peerMap, i := namedMap, 0;
    while i < |chain.peers|
      invariant 0 <= i <= |chain.peers| && peers == Firsts(named + chain.peers[..i])
      invariant Selected(peers, peerMap) && |peers| <= 3 * chain.c
      invariant forall k :: 0 < k <= i ==> |Firsts(named + chain.peers[..k])| <= 3 * chain.c
    {
      var peer := chain.peers[i];
      FillOn(named, chain.peers, i);
      Known(peers, peerMap, peer);
      if peer !in peerMap {
        Select(peers, peerMap, peer);
        peers, peerMap := peers + [peer], peerMap + {peer};
        Known(peers, peerMap, peer);
      }
      looked := i + 1;
      if |peerMap| > chain.c * 3 { return; }
      i := i + 1;
    }
    looked := i;
    assert chain.peers[..i] == chain.peers;
    AllConfigured(named, peerMap, chain);
    assert |peerMap| == |peers| by { Known(peers, peerMap, 0); }
  }

  /** The selected peers: those that the VRF value picks from the table, in order, and if these
      are too few the configured ones after them. */
  ghost predicate Selection(vrf: Vrf, chain: ChainConfig, peers: seq<nat>)
  {
    exists k: nat :: Looks(vrf, chain, k) &&
      var named := Firsts(Entries(vrf, chain.posTable, k));
      if |named| > 3 * chain.c then peers == named
      else exists m: nat :: Fills(named, chain, m) && peers == Firsts(named + chain.peers[..m])
  }

  lemma SelectedSo(vrf: Vrf, chain: ChainConfig, k: nat, m: nat, peers: seq<nat>)
    requires Looks(vrf, chain, k)
    requires var named := Firsts(Entries(vrf, chain.posTable, k));
      if |named| > 3 * chain.c then peers == named
      else Fills(named, chain, m) && peers == Firsts(named + chain.peers[..m])
    ensures Selection(vrf, chain, peers)
  {
  }

  /** The configured peers fill up when the table names too few. */
  method SelectPeers(vrf: Vrf, chain: ChainConfig) returns (peers: seq<nat>)
    ensures Selection(vrf, chain, peers)
    ensures Distinct(peers) && |peers| <= 5 * chain.c + 4
    ensures forall p :: p in peers ==> p in chain.posTable || p in chain.peers
    ensures |Configured(chain)| > 3 * chain.c ==> |peers| > 3 * chain.c
  {
    hide CalcParticipant, Firsts, Selected, Distinct;
    var peerMap;
    ghost var looked, filled := 0, 0;
    peers, peerMap, looked := SelectFromTable(vrf, chain);
    ghost var named := peers;
    FirstsOf(Entries(vrf, chain.posTable, looked));
    Known(peers, peerMap, 0);
    if |peerMap| <= chain.c * 3 {
      peers, filled := FillUp(peers, peerMap, chain);
      FirstsOf(named + chain.peers[..filled]);
    }
    SelectedSo(vrf, chain, looked, filled, peers);
  }

  /** Everything that is promised about the three lists. */
  ghost predicate Assignment(peers: seq<nat>, c: nat, proposers: seq<nat>, endorsers: seq<nat>, committers: seq<nat>)
  {
    && |proposers| == c + 1 && |endorsers| == 2 * c + 1 && 2 * c + 1 <= |committers| <= 2 * c + 2
    && Distinct(proposers) && Distinct(endorsers) && Distinct(committers)
    && (forall p :: p in proposers || p in endorsers || p in committers ==> p in peers)
    && proposers[0] !in endorsers && proposers[0] !in committers
  }

  /** With enough peers no one has two roles. */
  ghost predicate Separate(proposers: seq<nat>, endorsers: seq<nat>, committers: seq<nat>)
  {
    && (forall p :: p in proposers ==> p !in endorsers && p !in committers)
    && (forall p :: p in endorsers ==> p !in committers)
  }

  /** Which peer becomes endorser `k` (of `2c + 1`): the first half of those behind the
      proposers, then the last proposer, then committers from the end, then proposers
      downwards. */
  function EndorserAt(p: nat, c: nat, half: nat, k: nat): int
  {
    var rest := p - c - 1 - half;
    if k < half then c + 1 + k
    else if k == half then c
    else if k - half - 1 < rest then p - (k - half)
    else c - (k - half - rest)
  }

  /** Which peer becomes committer `k`: the second half, then the proposers behind the
      first, then endorsers from the end. */
  function CommitterAt(p: nat, c: nat, half: nat, k: nat): int
  {
    var rest := p - c - 1 - half;
    if k < rest then c + 1 + half + k
    else if k - rest < c then 1 + (k - rest)
    else c + half - (k - rest - c)
  }

  function Min(a: int, b: int): int { if a < b then a else b }

  /** As many committers as there are behind the endorsers, or as many as are wanted. */
  function CommitterCount(p: nat, c: nat, half: nat): int
  {
    var rest := p - c - 1 - half;
    if rest >= 2 * c + 1 then rest else Min(2 * c + 1, p - 1)
  }

  /** Entry `k` is the peer with this index, for every `k`. */
  ghost predicate Picks(list: seq<nat>, peers: seq<nat>, at: seq<int>)
  {
    |list| == |at| && forall k :: 0 <= k < |list| ==> 1 <= at[k] < |peers| && list[k] == peers[at[k]]
  }

  function EndorserIndices(p: nat, c: nat, half: nat, n: nat): (at: seq<int>)
    ensures |at| == n && forall k :: 0 <= k < n ==> at[k] == EndorserAt(p, c, half, k)
  {
    seq(n, k requires 0 <= k => EndorserAt(p, c, half, k))
  }

  function CommitterIndices(p: nat, c: nat, half: nat, n: nat): (at: seq<int>)
    ensures |at| == n && forall k :: 0 <= k < n ==> at[k] == CommitterAt(p, c, half, k)
  {
    seq(n, k requires 0 <= k => CommitterAt(p, c, half, k))
  }

  /** `half` is half of what lies behind the proposers, rounded down. */
  ghost predicate Halves(p: nat, c: nat, half: nat)
  {
    1 <= c && c + 1 <= p <= 5 * c + 4 && 2 * half <= p - c - 1 <= 2 * half + 1
  }

  ghost predicate Parts(peers: seq<nat>, c: nat, half: nat, proposers: seq<nat>, endorsers0: seq<nat>,
                        committers0: seq<nat>)
  {
    && Halves(|peers|, c, half)
    && proposers == peers[..c + 1]
    && endorsers0 == peers[c + 1..c + 1 + half] && committers0 == peers[c + 1 + half..]
  }

  lemma PickEndorser(list: seq<nat>, x: nat, peers: seq<nat>, c: nat, half: nat)
    requires Picks(list, peers, EndorserIndices(|peers|, c, half, |list|))
    requires var q := EndorserAt(|peers|, c, half, |list|); 1 <= q < |peers| && x == peers[q]
    ensures Picks(list + [x], peers, EndorserIndices(|peers|, c, half, |list| + 1))
  {
  }

  lemma PickFirst(peers: seq<nat>, c: nat, half: nat, proposers: seq<nat>, endorsers0: seq<nat>, committers0: seq<nat>)
    requires Parts(peers, c, half, proposers, endorsers0, committers0)
    ensures Picks(endorsers0, peers, EndorserIndices(|peers|, c, half, |endorsers0|))
    ensures Picks(committers0, peers, CommitterIndices(|peers|, c, half, |committers0|))
  {
  }

  /** The last resort for endorsers: the proposers behind the first, downwards. */
  method AddProposers(ghost peers: seq<nat>, c: nat, ghost half: nat, proposers: seq<nat>, endorsers0: seq<nat>)
    returns (endorsers: seq<nat>)
    requires Halves(|peers|, c, half) && proposers == peers[..c + 1]
    requires |endorsers0| == 2 * c + 1 <= |peers| - c || |endorsers0| == |peers| - c <= 2 * c + 1
    requires Picks(endorsers0, peers, EndorserIndices(|peers|, c, half, |endorsers0|))
    ensures |endorsers| == Min(2 * c + 1, |peers| - 1)
    ensures Picks(endorsers, peers, EndorserIndices(|peers|, c, half, |endorsers|))
  {
    hide Picks;
    ghost var p := |peers|;
    endorsers := endorsers0;
    var i := c - 1;
    while i > 0 && |endorsers| < 2 * c + 1
      invariant 0 <= i < c && |endorsers| <= 2 * c + 1
      invariant |endorsers| == if |endorsers0| == 2 * c + 1 then 2 * c + 1 else p - c + (c - 1 - i)
      invariant Picks(endorsers, peers, EndorserIndices(p, c, half, |endorsers|))
    {
      PickEndorser(endorsers, proposers[i], peers, c, half);
      endorsers := endorsers + [proposers[i]];
      i := i - 1;
    }
  }

  method FillEndorsers(ghost peers: seq<nat>, c: nat, ghost half: nat, proposers: seq<nat>, endorsers0: seq<nat>,
                       committers: seq<nat>)
    returns (endorsers: seq<nat>)
    requires Parts(peers, c, half, proposers, endorsers0, committers)
    ensures |endorsers| == Min(2 * c + 1, |peers| - 1)
    ensures Picks(endorsers, peers, EndorserIndices(|peers|, c, half, |endorsers|))
  {
    ghost var p := |peers|;
    hide Picks;
    PickFirst(peers, c, half, proposers, endorsers0, committers);
    var want := 2 * c + 1;
    endorsers := endorsers0;
    if |endorsers| < want {
      PickEndorser(endorsers, proposers[c], peers, c, half);
      endorsers := endorsers + [proposers[c]];
      var i := |committers| - 1;
      while i >= 0 && |endorsers| < want
        invariant -1 <= i < |committers|
        invariant |endorsers| == |endorsers0| + 1 + (|committers| - 1 - i) <= want
        invariant |endorsers| <= p - 1
        invariant Picks(endorsers, peers, EndorserIndices(p, c, half, |endorsers|))
      {
        PickEndorser(endorsers, committers[i], peers, c, half);
        endorsers := endorsers + [committers[i]];
        i := i - 1;
      }
      endorsers := AddProposers(peers, c, half, proposers, endorsers);
    }
  }

  lemma PickCommitter(list: seq<nat>, x: nat, peers: seq<nat>, c: nat, half: nat)
    requires Picks(list, peers, CommitterIndices(|peers|, c, half, |list|))
    requires var q := CommitterAt(|peers|, c, half, |list|); 1 <= q < |peers| && x == peers[q]
    ensures Picks(list + [x], peers, CommitterIndices(|peers|, c, half, |list| + 1))
  {
  }

  method FillCommitters(ghost peers: seq<nat>, c: nat, ghost half: nat, proposers: seq<nat>, endorsers0: seq<nat>,
                        committers0: seq<nat>)
    returns (committers: seq<nat>)
    requires Parts(peers, c, half, proposers, endorsers0, committers0)
    ensures |committers| == CommitterCount(|peers|, c, half)
    ensures Picks(committers, peers, CommitterIndices(|peers|, c, half, |committers|))
  {
    ghost var p := |peers|;
    hide Picks;
    PickFirst(peers, c, half, proposers, endorsers0, committers0);
    var want := 2 * c + 1;
    committers := committers0;
    if |committers| < want {
      var i := 1;
      while i < |proposers| && |committers| < want
        invariant 1 <= i <= c + 1
        invariant |committers| == |committers0| + (i - 1) <= want
        invariant |committers| <= p - 1
        invariant Picks(committers, peers, CommitterIndices(p, c, half, |committers|))
      {
        PickCommitter(committers, proposers[i], peers, c, half);
        committers := committers + [proposers[i]];
        i := i + 1;
      }
      i := |endorsers0| - 1;
      while i >= 0 && |committers| < want
        invariant -1 <= i < |endorsers0|
        invariant |committers| <= want && |committers| <= p - 1
        invariant i < |endorsers0| - 1 || |committers| < want ==>
          |committers| == |committers0| + c + (|endorsers0| - 1 - i)
        invariant Picks(committers, peers, CommitterIndices(p, c, half, |committers|))
      {
        PickCommitter(committers, endorsers0[i], peers, c, half);
        committers := committers + [endorsers0[i]];
        i := i - 1;
      }
    }
  }

  /** The lists as the program builds them, index by index. At least `c + 1` peers keep
      every slice in range; `2c + 2` give every list its full length. */
  method AssignRoles(peers: seq<nat>, c: nat)
    returns (proposers: seq<nat>, endorsers: seq<nat>, committers: seq<nat>, ghost half: nat)
    requires 1 <= c && c + 1 <= |peers| <= 5 * c + 4
    ensures proposers == peers[..c + 1] && Halves(|peers|, c, half)
    ensures |endorsers| == Min(2 * c + 1, |peers| - 1)
    ensures Picks(endorsers, peers, EndorserIndices(|peers|, c, half, |endorsers|))
    ensures |committers| == CommitterCount(|peers|, c, half)
    ensures Picks(committers, peers, CommitterIndices(|peers|, c, half, |committers|))
  {
    proposers := peers[..c + 1];
    var n := (|peers| - |proposers|) / 2;
    half := n;
    var endorsers0 := peers[c + 1..c + 1 + n];
    var committers0 := peers[c + 1 + n..];
    endorsers := FillEndorsers(peers, c, half, proposers, endorsers0, committers0);
    committers := FillCommitters(peers, c, half, proposers, endorsers0, committers0);
  }

  lemma EndorsersDiffer(p: nat, c: nat, half: nat, i: nat, j: nat)
    requires Halves(p, c, half) && i < j < p - 1
    ensures EndorserAt(p, c, half, i) != EndorserAt(p, c, half, j)
  {
  }

  lemma CommittersDiffer(p: nat, c: nat, half: nat, i: nat, j: nat)
    requires Halves(p, c, half) && i < j < p - 1
    ensures CommitterAt(p, c, half, i) != CommitterAt(p, c, half, j)
  {
  }

  lemma PicksDistinct(list: seq<nat>, peers: seq<nat>, at: seq<int>)
    requires Distinct(peers) && Picks(list, peers, at)
    requires forall i, j :: 0 <= i < j < |list| ==> at[i] != at[j]
    ensures Distinct(list)
  {
    forall i, j | 0 <= i < j < |list| ensures list[i] != list[j] {
      assert at[i] != at[j];
    }
  }

  lemma PicksNotFirst(list: seq<nat>, peers: seq<nat>, at: seq<int>)
    requires Distinct(peers) && Picks(list, peers, at) && |peers| > 0
    ensures peers[0] !in list && forall p :: p in list ==> p in peers
  {
    forall k | 0 <= k < |list| ensures list[k] != peers[0] && list[k] in peers {
      assert list[k] == peers[at[k]];
    }
  }

  /** Two picks with no index in common have no peer in common. */
  lemma PicksApart(a: seq<nat>, at: seq<int>, b: seq<nat>, bt: seq<int>, peers: seq<nat>)
    requires Distinct(peers) && Picks(a, peers, at) && Picks(b, peers, bt)
    requires forall i, j :: 0 <= i < |a| && 0 <= j < |b| ==> at[i] != bt[j]
    ensures forall p :: p in a ==> p !in b
  {
    forall i, j | 0 <= i < |a| && 0 <= j < |b| ensures a[i] != b[j] {
      assert at[i] != bt[j];
    }
  }

  lemma RolesApart(peers: seq<nat>, c: nat, half: nat, proposers: seq<nat>, endorsers: seq<nat>, committers: seq<nat>)
    requires Halves(|peers|, c, half) && 5 * c + 3 <= |peers| && Distinct(peers)
    requires proposers == peers[..c + 1]
    requires |endorsers| == Min(2 * c + 1, |peers| - 1)
    requires Picks(endorsers, peers, EndorserIndices(|peers|, c, half, |endorsers|))
    requires |committers| == CommitterCount(|peers|, c, half)
    requires Picks(committers, peers, CommitterIndices(|peers|, c, half, |committers|))
    ensures Separate(proposers, endorsers, committers)
  {
    var p := |peers|;
    var et, ct := EndorserIndices(p, c, half, |endorsers|), CommitterIndices(p, c, half, |committers|);
    PicksApart(endorsers, et, committers, ct, peers);
    forall i, j | 0 <= i < |proposers| && 0 <= j < |endorsers| ensures proposers[i] != endorsers[j] {
      assert endorsers[j] == peers[et[j]] && et[j] > c;
    }
    forall i, j | 0 <= i < |proposers| && 0 <= j < |committers| ensures proposers[i] != committers[j] {
      assert committers[j] == peers[ct[j]] && ct[j] > c;
    }
  }

  lemma RolesDistinct(peers: seq<nat>, c: nat, half: nat, proposers: seq<nat>, endorsers: seq<nat>,
                      committers: seq<nat>)
    requires Halves(|peers|, c, half) && 2 * c + 2 <= |peers| && Distinct(peers)
    requires proposers == peers[..c + 1]
    requires |endorsers| == Min(2 * c + 1, |peers| - 1)
    requires Picks(endorsers, peers, EndorserIndices(|peers|, c, half, |endorsers|))
    requires |committers| == CommitterCount(|peers|, c, half)
    requires Picks(committers, peers, CommitterIndices(|peers|, c, half, |committers|))
    ensures Assignment(peers, c, proposers, endorsers, committers)
    ensures |peers| >= 5 * c + 3 ==> Separate(proposers, endorsers, committers)
  {
    var p := |peers|;
    var et, ct := EndorserIndices(p, c, half, |endorsers|), CommitterIndices(p, c, half, |committers|);
    forall i, j | 0 <= i < j < |endorsers| ensures et[i] != et[j] { EndorsersDiffer(p, c, half, i, j); }
    PicksDistinct(endorsers, peers, et);
    PicksNotFirst(endorsers, peers, et);
    forall i, j | 0 <= i < j < |committers| ensures ct[i] != ct[j] { CommittersDiffer(p, c, half, i, j); }
    PicksDistinct(committers, peers, ct);
    PicksNotFirst(committers, peers, ct);
    if p >= 5 * c + 3 {
      RolesApart(peers, c, half, proposers, endorsers, committers);
    }
  }

  /** The first `n` of a list. */
  predicate FirstOf(list: seq<nat>, all: seq<nat>, n: int)
  {
    0 <= n <= |all| && list == all[..n]
  }

  /** Whom the roles go to. Behind the proposers the peers are split in two. Each half is filled
      up to `2c + 1`: the first with the last proposer, the second half from its end and the
      other proposers from the last, the second with the proposers and the first half from its
      end. The leading proposer is never taken. */
  ghost predicate RolesOf(peers: seq<nat>, c: nat, proposers: seq<nat>, endorsers: seq<nat>, committers: seq<nat>)
    requires 1 <= c && c + 1 <= |peers|
  {
    var half := (|peers| - c - 1) / 2;
    var first, second := peers[c + 1..c + 1 + half], peers[c + 1 + half..];
    && proposers == peers[..c + 1]
    && FirstOf(endorsers, first + ([peers[c]] + Reversed(second) + Reversed(peers[1..c])), Min(2 * c + 1, |peers| - 1))
    && FirstOf(committers, second + (peers[1..c + 1] + Reversed(first)),
               if |second| > 2 * c + 1 then |second| else Min(2 * c + 1, |peers| - 1))
  }

  lemma EndorserOrder(peers: seq<nat>, c: nat, half: nat, endorsers: seq<nat>)
    requires Halves(|peers|, c, half) && |endorsers| == Min(2 * c + 1, |peers| - 1)
    requires Picks(endorsers, peers, EndorserIndices(|peers|, c, half, |endorsers|))
    ensures var first, second := peers[c + 1..c + 1 + half], peers[c + 1 + half..];
      FirstOf(endorsers, first + ([peers[c]] + Reversed(second) + Reversed(peers[1..c])), |endorsers|)
  {
    var first, second := peers[c + 1..c + 1 + half], peers[c + 1 + half..];
    var all := first + ([peers[c]] + Reversed(second) + Reversed(peers[1..c]));
    assert |all| == |peers| - 1;
    forall k | 0 <= k < |endorsers| ensures endorsers[k] == all[k] {
      var at := EndorserAt(|peers|, c, half, k);
      assert endorsers[k] == peers[at];
      if half < k <= half + |second| {
        assert all[k] == Reversed(second)[k - half - 1];
      } else if k > half + |second| {
        assert all[k] == Reversed(peers[1..c])[k - half - 1 - |second|];
      }
    }
  }

  lemma CommitterOrder(peers: seq<nat>, c: nat, half: nat, committers: seq<nat>)
    requires Halves(|peers|, c, half) && |committers| == CommitterCount(|peers|, c, half)
    requires Picks(committers, peers, CommitterIndices(|peers|, c, half, |committers|))
    ensures var first, second := peers[c + 1..c + 1 + half], peers[c + 1 + half..];
      FirstOf(committers, second + (peers[1..c + 1] + Reversed(first)), |committers|)
  {
    var first, second := peers[c + 1..c + 1 + half], peers[c + 1 + half..];
    var all := second + (peers[1..c + 1] + Reversed(first));
    assert |all| == |peers| - 1;
    forall k | 0 <= k < |committers| ensures committers[k] == all[k] {
      var at := CommitterAt(|peers|, c, half, k);
      assert committers[k] == peers[at];
      if |second| <= k < |second| + c {
        assert all[k] == peers[1..c + 1][k - |second|];
      } else if k >= |second| + c {
        assert all[k] == Reversed(first)[k - |second| - c];
      }
    }
  }

  lemma RoleOrder(peers: seq<nat>, c: nat, half: nat, proposers: seq<nat>, endorsers: seq<nat>, committers: seq<nat>)
    requires Halves(|peers|, c, half) && proposers == peers[..c + 1]
    requires |endorsers| == Min(2 * c + 1, |peers| - 1) && |committers| == CommitterCount(|peers|, c, half)
    requires Picks(endorsers, peers, EndorserIndices(|peers|, c, half, |endorsers|))
    requires Picks(committers, peers, CommitterIndices(|peers|, c, half, |committers|))
    ensures RolesOf(peers, c, proposers, endorsers, committers)
  {
    hide FirstOf, Picks;
    assert half == (|peers| - c - 1) / 2;
    EndorserOrder(peers, c, half, endorsers);
    CommitterOrder(peers, c, half, committers);
  }

  lemma AssignedFrom(peers: seq<nat>, all: seq<nat>, c: nat, proposers: seq<nat>, endorsers: seq<nat>,
                     committers: seq<nat>)
    requires Assignment(peers, c, proposers, endorsers, committers) && forall p :: p in peers ==> p in all
    ensures Assignment(all, c, proposers, endorsers, committers)
  {
  }

  /** `calcParticipantPeers`: for every VRF value and every table. */
  method CalcParticipantPeers(vrf: Vrf, chain: ChainConfig)
    returns (proposers: seq<nat>, endorsers: seq<nat>, committers: seq<nat>, ghost peers: seq<nat>)
    requires chain.c >= 1 && |Configured(chain)| > 3 * chain.c
    ensures Selection(vrf, chain, peers) && |peers| > 3 * chain.c
    ensures RolesOf(peers, chain.c, proposers, endorsers, committers)
    ensures Assignment(chain.posTable + chain.peers, chain.c, proposers, endorsers, committers)
    ensures |committers| == 2 * chain.c + 2 ==> Separate(proposers, endorsers, committers)
  {
    hide Selection, Picks, RolesOf, Assignment, Separate, Distinct;
    var selected := SelectPeers(vrf, chain);
    peers := selected;
    ghost var half;
    proposers, endorsers, committers, half := AssignRoles(selected, chain.c);
    RolesDistinct(peers, chain.c, half, proposers, endorsers, committers);
    RoleOrder(peers, chain.c, half, proposers, endorsers, committers);
    AssignedFrom(peers, chain.posTable + chain.peers, chain.c, proposers, endorsers, committers);
  }
}
