/** The endorsement table of consensus/vbft/block_pool.go and the two quorum decisions
    taken over it and over the commit messages (consensus/vbft/node_utils.go). Go
    iterates over maps in any order: the loops choose the next key freely. */
module VbftEndorsements {
  import opened Common
  import opened Sets

  const NO_PROPOSER: nat := 0xFFFF_FFFF

  datatype EndorseSig = EndorseSig(proposer: nat, forEmpty: bool, signature: Bytes)

  /** Indexed by the endorser. */
  type Table = map<nat, seq<EndorseSig>>

  predicate HasEmpty(sigs: seq<EndorseSig>)
  {
    exists i :: 0 <= i < |sigs| && sigs[i].forEmpty
  }

  predicate Names(sigs: seq<EndorseSig>, proposer: nat)
  {
    exists i :: 0 <= i < |sigs| && !sigs[i].forEmpty && sigs[i].proposer == proposer
  }

  function Lookup(t: Table, endorser: nat): Option<seq<EndorseSig>>
  {
    if endorser in t then Some(t[endorser]) else None
  }

  /** What becomes of the list of one endorser. */
  function AddTo(list: Option<seq<EndorseSig>>, sig: EndorseSig, commitment: bool): seq<EndorseSig>
  {
    if list.None? || commitment then [sig]
    else if HasEmpty(list.value) then list.value
    else if sig.forEmpty || !Names(list.value, sig.proposer) then list.value + [sig]
    else list.value
  }

  function AddEndorsement(t: Table, endorser: nat, sig: EndorseSig, commitment: bool): Table
  {
    t[endorser := AddTo(Lookup(t, endorser), sig, commitment)]
  }

  /** At most one empty entry, which is last, and no proposer twice. */
  ghost predicate ListOk(sigs: seq<EndorseSig>)
  {
    && |sigs| > 0
    && (forall i :: 0 <= i < |sigs| - 1 ==> !sigs[i].forEmpty)
    && (forall i, j :: 0 <= i < j < |sigs| && !sigs[j].forEmpty ==> sigs[i].proposer != sigs[j].proposer)
  }

  ghost predicate TableOk(t: Table)
  {
    forall e :: e in t ==> ListOk(t[e])
  }

  lemma AddKeeps(t: Table, endorser: nat, sig: EndorseSig, commitment: bool)
    requires TableOk(t)
    ensures TableOk(AddEndorsement(t, endorser, sig, commitment))
  {
    if endorser in t { assert ListOk(t[endorser]); }
    assert ListOk(AddTo(Lookup(t, endorser), sig, commitment));
  }

  // ---------- endorsement quorum ----------

  /** The endorsers of a proposer, and of an empty block. */
  function EndorsersOf(t: Table, proposer: nat): set<nat>
  {
    set e | e in t && Names(t[e], proposer)
  }

  function EmptyEndorsers(t: Table): set<nat>
  {
    set e | e in t && HasEmpty(t[e])
  }

  function Count(counts: map<nat, nat>, p: nat): nat
  {
    if p in counts then counts[p] else 0
  }

  /** The counts after whole lists of the endorsers `done` have been counted. */
  ghost predicate Counted(t: Table, done: set<nat>, counts: map<nat, nat>, empty: nat)
  {
    && empty == |EmptyEndorsers(t) * done|
    && forall p :: Count(counts, p) == |EndorsersOf(t, p) * done|
  }

  /** The same with the first `k` entries of endorser `e` counted as well. */
  ghost predicate Counting(t: Table, done: set<nat>, e: nat, k: nat, counts: map<nat, nat>, empty: nat)
    requires e in t && k <= |t[e]|
  {
    && empty == |EmptyEndorsers(t) * done| + (if HasEmpty(t[e][..k]) then 1 else 0)
    && forall p :: Count(counts, p) == |EndorsersOf(t, p) * done| + (if Names(t[e][..k], p) then 1 else 0)
  }

  ghost predicate Below(counts: map<nat, nat>, c: nat)
  {
    forall p :: Count(counts, p) <= c
  }

  lemma BelowNext(counts: map<nat, nat>, q: nat, c: nat)
    requires Below(counts, c)
    ensures Count(counts, q) + 1 <= c ==> Below(counts[q := Count(counts, q) + 1], c)
  {
    var next := counts[q := Count(counts, q) + 1];
    forall p ensures p != q ==> Count(next, p) == Count(counts, p) {}
  }

  lemma CountNone(t: Table)
    ensures Counted(t, {}, map[], 0)
  {
    assert EmptyEndorsers(t) * {} == {};
    assert forall p :: EndorsersOf(t, p) * {} == {};
  }

  lemma CountStart(t: Table, done: set<nat>, e: nat, counts: map<nat, nat>, empty: nat)
    requires Counted(t, done, counts, empty) && e in t
    ensures Counting(t, done, e, 0, counts, empty)
  {
  }

  lemma CountEnd(t: Table, done: set<nat>, e: nat, counts: map<nat, nat>, empty: nat)
    requires e in t && e !in done && Counting(t, done, e, |t[e]|, counts, empty)
    ensures Counted(t, done + {e}, counts, empty)
  {
    assert t[e][..|t[e]|] == t[e];
    assert EmptyEndorsers(t) * (done + {e}) == EmptyEndorsers(t) * done + (if HasEmpty(t[e]) then {e} else {});
    forall p
      ensures Count(counts, p) == |EndorsersOf(t, p) * (done + {e})|
    {
      assert EndorsersOf(t, p) * (done + {e}) == EndorsersOf(t, p) * done + (if Names(t[e], p) then {e} else {});
    }
  }

  /** One more entry in a list. */
  lemma NamesNext(sigs: seq<EndorseSig>, k: nat)
    requires ListOk(sigs) && k < |sigs|
    ensures !HasEmpty(sigs[..k]) && HasEmpty(sigs[..k + 1]) == sigs[k].forEmpty
    ensures forall p :: Names(sigs[..k + 1], p) == (Names(sigs[..k], p) || (!sigs[k].forEmpty && sigs[k].proposer == p))
    ensures !sigs[k].forEmpty ==> !Names(sigs[..k], sigs[k].proposer)
  {
    var a, b, s := sigs[..k], sigs[..k + 1], sigs[k];
    assert b == a + [s];
    assert b[k] == s;
    forall p ensures Names(b, p) == (Names(a, p) || (!s.forEmpty && s.proposer == p)) {
      if Names(a, p) {
        var i :| 0 <= i < |a| && !a[i].forEmpty && a[i].proposer == p;
        assert b[i] == a[i];
      }
    }
  }

  lemma CountOne(t: Table, done: set<nat>, e: nat, k: nat, counts: map<nat, nat>, empty: nat)
    requires e in t && k < |t[e]| && ListOk(t[e]) && Counting(t, done, e, k, counts, empty)
    ensures var s := t[e][k];
      if s.forEmpty then Counting(t, done, e, k + 1, counts, empty + 1)
      else Counting(t, done, e, k + 1, counts[s.proposer := Count(counts, s.proposer) + 1], empty)
  {
    hide ListOk, Names, HasEmpty, EndorsersOf, EmptyEndorsers;
    NamesNext(t[e], k);
    var s := t[e][k];
    var next := counts[s.proposer := Count(counts, s.proposer) + 1];
    assert forall p :: Count(next, p) == Count(counts, p) + (if p == s.proposer then 1 else 0);
  }

  lemma PartSize(t: Table, a: set<nat>, done: set<nat>, e: nat)
    requires done <= t.Keys && e !in done
    ensures |a * done| <= |a|
    ensures e in a ==> |a * done| + 1 <= |a|
  {
    SubsetSize(a * done, a);
    if e in a { SubsetSize(a * done + {e}, a); }
  }

  /** What has been counted is never more than there is. */
  lemma OneMore(t: Table, done: set<nat>, e: nat, k: nat, s: EndorseSig, counts: map<nat, nat>, empty: nat)
    requires e in t && k < |t[e]| && s == t[e][k] && done <= t.Keys && e !in done
    requires Counting(t, done, e, k + 1, counts, empty)
    ensures s.forEmpty ==> empty <= |EmptyEndorsers(t)|
    ensures !s.forEmpty ==> Count(counts, s.proposer) <= |EndorsersOf(t, s.proposer)|
  {
    assert t[e][..k + 1][k] == s;
    PartSize(t, EmptyEndorsers(t), done, e);
    PartSize(t, EndorsersOf(t, s.proposer), done, e);
  }

  /** The entries of one endorser, up to the one that completes a quorum. */
  method CountEndorser(t: Table, ghost seen: set<nat>, e: nat, c: nat, counts0: map<nat, nat>, empty0: nat)
    returns (counts: map<nat, nat>, empty: nat, hit: Option<EndorseSig>)
    requires TableOk(t) && e in t && e !in seen && seen <= t.Keys
    requires Counted(t, seen, counts0, empty0) && empty0 <= c && Below(counts0, c)
    ensures hit.None? ==> Counted(t, seen + {e}, counts, empty) && empty <= c && Below(counts, c)
    ensures hit.Some? ==>
      if hit.value.forEmpty then |EmptyEndorsers(t)| > c else |EndorsersOf(t, hit.value.proposer)| > c
  {
    hide Counted, Counting, ListOk, Names, HasEmpty, EndorsersOf, EmptyEndorsers;
    counts, empty, hit := counts0, empty0, None;
    CountStart(t, seen, e, counts, empty);
    var k := 0;
    while k < |t[e]|
      invariant 0 <= k <= |t[e]| && Counting(t, seen, e, k, counts, empty) && empty <= c
      invariant Below(counts, c)
    {
      var s := t[e][k];
      CountOne(t, seen, e, k, counts, empty);
      if s.forEmpty {
        empty := empty + 1;
        if empty > c {
          OneMore(t, seen, e, k, s, counts, empty);
          hit := Some(s);
          return;
        }
      } else {
        BelowNext(counts, s.proposer, c);
        counts := counts[s.proposer := Count(counts, s.proposer) + 1];
        if counts[s.proposer] > c {
          OneMore(t, seen, e, k, s, counts, empty);
          hit := Some(s);
          return;
        }
      }
      k := k + 1;
    }
    CountEnd(t, seen, e, counts, empty);
  }

  lemma TooFew(t: Table, c: nat)
    requires |t| <= c
    ensures |EmptyEndorsers(t)| <= c && forall p :: |EndorsersOf(t, p)| <= c
  {
    SubsetSize(EmptyEndorsers(t), t.Keys);
    forall p ensures |EndorsersOf(t, p)| <= c { SubsetSize(EndorsersOf(t, p), t.Keys); }
  }

  lemma AllCounted(t: Table, done: set<nat>, counts: map<nat, nat>, empty: nat)
    requires done == t.Keys && Counted(t, done, counts, empty)
    ensures empty == |EmptyEndorsers(t)| && forall p :: Count(counts, p) == |EndorsersOf(t, p)|
  {
    assert EmptyEndorsers(t) * done == EmptyEndorsers(t);
    forall p ensures Count(counts, p) == |EndorsersOf(t, p)| {
      assert EndorsersOf(t, p) * done == EndorsersOf(t, p);
    }
  }

  /** `endorseDone`: reports a proposer exactly when more than `c` peers endorsed it, or
      more than `c` endorsed empty; and whatever the order, what it reports is so. */
  method EndorseDone(t: Table, c: nat) returns (proposer: nat, forEmpty: bool, done: bool)
    requires TableOk(t)
    ensures done <==> |EmptyEndorsers(t)| > c || exists p :: |EndorsersOf(t, p)| > c
    ensures done && forEmpty ==> |EmptyEndorsers(t)| > c
    ensures done && !forEmpty ==> |EndorsersOf(t, proposer)| > c
  {
    hide Counted, ListOk, Names, HasEmpty, EndorsersOf, EmptyEndorsers;
    if |t| < c + 1 {
      TooFew(t, c);
      return NO_PROPOSER, false, false;
    }
    var counts: map<nat, nat>, empty: nat, hit := map[], 0, None;
    var todo := t.Keys;
    ghost var seen: set<nat> := {};
    CountNone(t);
    while todo != {}
      invariant todo <= t.Keys && seen == t.Keys - todo
      invariant Counted(t, seen, counts, empty) && empty <= c && Below(counts, c)
      decreases |todo|
    {
      var e :| e in todo;
      counts, empty, hit := CountEndorser(t, seen, e, c, counts, empty);
      if hit.Some? {
        return hit.value.proposer, hit.value.forEmpty, true;
      }
      todo, seen := todo - {e}, seen + {e};
    }
    AllCounted(t, seen, counts, empty);
    return NO_PROPOSER, false, false;
  }

  // ---------- commit quorum ----------

  datatype CommitMsg = CommitMsg(block: nat, proposer: nat, committer: nat, forEmpty: bool, blockHash: Uint256,
                                 endorsersSig: map<nat, Bytes>, committerSig: Bytes)

  /** Everyone who signed for a proposer in these messages. */
  function SignersOf(msgs: seq<CommitMsg>, proposer: nat): set<nat>
  {
    if msgs == [] then {}
    else
      var m := msgs[|msgs| - 1];
      SignersOf(msgs[..|msgs| - 1], proposer) +
        (if m.proposer == proposer then {m.committer} + m.endorsersSig.Keys else {})
  }

  function EmptyCommits(msgs: seq<CommitMsg>): nat
  {
    if msgs == [] then 0
    else EmptyCommits(msgs[..|msgs| - 1]) + (if msgs[|msgs| - 1].forEmpty then 1 else 0)
  }

  predicate Reached(msgs: seq<CommitMsg>, proposer: nat, n: nat)
    requires n > 0
  {
    |SignersOf(msgs, proposer)| + 1 >= n - (n - 1) / 3 && exists i :: 0 <= i < |msgs| && msgs[i].proposer == proposer
  }

  lemma {:induction false} SignersGrow(msgs: seq<CommitMsg>, k: nat, proposer: nat)
    requires k <= |msgs|
    ensures SignersOf(msgs[..k], proposer) <= SignersOf(msgs, proposer)
    decreases |msgs|
  {
    if k == |msgs| {
      assert msgs[..k] == msgs;
    } else {
      var init := msgs[..|msgs| - 1];
      assert init[..k] == msgs[..k];
      SignersGrow(init, k, proposer);
    }
  }

  lemma SignersNext(msgs: seq<CommitMsg>, k: nat, p: nat)
    requires k < |msgs|
    ensures SignersOf(msgs[..k + 1], p) ==
      SignersOf(msgs[..k], p) + (if msgs[k].proposer == p then {msgs[k].committer} + msgs[k].endorsersSig.Keys else {})
    ensures EmptyCommits(msgs[..k + 1]) == EmptyCommits(msgs[..k]) + (if msgs[k].forEmpty then 1 else 0)
  {
    assert msgs[..k + 1][..k] == msgs[..k];
  }

  function Tally(signCount: map<nat, set<nat>>, p: nat): set<nat>
  {
    if p in signCount then signCount[p] else {}
  }

  /** Before message `k`: the signers per proposer are tallied, and nobody has a quorum. */
  ghost predicate Tallied(msgs: seq<CommitMsg>, k: nat, n: nat, signCount: map<nat, set<nat>>)
    requires k <= |msgs| && n > 0
  {
    && (forall p :: Tally(signCount, p) == SignersOf(msgs[..k], p))
    && (forall p :: !Reached(msgs[..k], p, n))
  }

  lemma ReachedByOther(msgs: seq<CommitMsg>, k: nat, n: nat, p: nat)
    requires k < |msgs| && n > 0 && p != msgs[k].proposer
    ensures Reached(msgs[..k + 1], p, n) <==> Reached(msgs[..k], p, n)
  {
    hide SignersOf;
    var b, a := msgs[..k + 1], msgs[..k];
    SignersNext(msgs, k, p);
    assert SignersOf(b, p) == SignersOf(a, p);
    assert b == a + [msgs[k]];
    if i :| 0 <= i < |a| && a[i].proposer == p { assert b[i].proposer == p; }
    if i :| 0 <= i < |b| && b[i].proposer == p { assert a[i].proposer == p; }
  }

  lemma ReachedNext(msgs: seq<CommitMsg>, k: nat, n: nat)
    requires k < |msgs| && n > 0
    ensures Reached(msgs[..k + 1], msgs[k].proposer, n) <==>
      |SignersOf(msgs[..k + 1], msgs[k].proposer)| + 1 >= n - (n - 1) / 3
    ensures forall p :: p != msgs[k].proposer ==> (Reached(msgs[..k + 1], p, n) <==> Reached(msgs[..k], p, n))
  {
    hide SignersOf;
    assert msgs[..k + 1][k] == msgs[k];
    forall p | p != msgs[k].proposer
      ensures Reached(msgs[..k + 1], p, n) <==> Reached(msgs[..k], p, n)
    {
      ReachedByOther(msgs, k, n, p);
    }
  }

  lemma ReachedLater(msgs: seq<CommitMsg>, k: nat, p: nat, n: nat)
    requires k <= |msgs| && n > 0 && Reached(msgs[..k], p, n)
    ensures Reached(msgs, p, n)
  {
    SignersGrow(msgs, k, p);
    SubsetSize(SignersOf(msgs[..k], p), SignersOf(msgs, p));
    var i :| 0 <= i < |msgs[..k]| && msgs[..k][i].proposer == p;
    assert msgs[i].proposer == p;
  }

  lemma TallyNext(msgs: seq<CommitMsg>, k: nat, n: nat, signCount: map<nat, set<nat>>)
    requires k < |msgs| && n > 0 && Tallied(msgs, k, n, signCount)
    ensures var m := msgs[k];
      var signers := Tally(signCount, m.proposer) + {m.committer} + m.endorsersSig.Keys;
      if |signers| + 1 >= n - (n - 1) / 3 then Reached(msgs[..k + 1], m.proposer, n) && Reached(msgs, m.proposer, n)
      else Tallied(msgs, k + 1, n, signCount[m.proposer := signers])
  {
    hide SignersOf, Reached;
    var m := msgs[k];
    var signers := Tally(signCount, m.proposer) + {m.committer} + m.endorsersSig.Keys;
    var next, upTo := signCount[m.proposer := signers], msgs[..k + 1];
    SignersNext(msgs, k, m.proposer);
    assert signers == SignersOf(msgs[..k + 1], m.proposer);
    ReachedNext(msgs, k, n);
    if |signers| + 1 >= n - (n - 1) / 3 {
      ReachedLater(msgs, k + 1, m.proposer, n);
    } else {
      forall p ensures Tally(next, p) == SignersOf(upTo, p) {
        SignersNext(msgs, k, p);
        assert p != m.proposer ==> Tally(next, p) == Tally(signCount, p);
      }
      forall p ensures !Reached(upTo, p, n) {
        assert !Reached(msgs[..k], p, n);
      }
    }
  }

  /** The decision of `getCommitConsensus` falls at message `k`. */
  ghost predicate DecidesAt(msgs: seq<CommitMsg>, k: nat, c: nat, n: nat, proposer: nat, emptyCommit: bool)
    requires k < |msgs| && n > 0
  {
    && msgs[k].proposer == proposer && Reached(msgs[..k + 1], proposer, n)
    && (forall p :: !Reached(msgs[..k], p, n))
    && emptyCommit == (EmptyCommits(msgs[..k + 1]) > c)
  }

  lemma TallyNone(msgs: seq<CommitMsg>, n: nat)
    requires n > 0
    ensures Tallied(msgs, 0, n, map[])
  {
  }

  /** `getCommitConsensus`: finds a proposer whose distinct signers plus one make a quorum
      of `n`, at the first message that completes one; the empty flag says that more than
      `c` of the messages so far commit to empty. Nobody is found exactly when no proposer
      has a quorum. */
  method GetCommitConsensus(msgs: seq<CommitMsg>, c: nat, n: nat) returns (proposer: nat, emptyCommit: bool)
    requires n > 0
    ensures (exists p :: Reached(msgs, p, n)) ==>
      exists k: nat :: k < |msgs| && DecidesAt(msgs, k, c, n, proposer, emptyCommit)
    ensures (forall p :: !Reached(msgs, p, n)) ==> proposer == NO_PROPOSER && !emptyCommit
  {
    hide SignersOf, Reached;
    var limit, empties := c, 0;
    emptyCommit := false;
    var signCount: map<nat, set<nat>> := map[];
    TallyNone(msgs, n);
    for k := 0 to |msgs|
      invariant empties == EmptyCommits(msgs[..k]) && emptyCommit == (empties > c)
      invariant limit == if emptyCommit then c + 1 else c
      invariant Tallied(msgs, k, n, signCount)
    {
      var m := msgs[k];
      SignersNext(msgs, k, m.proposer);
      TallyNext(msgs, k, n, signCount);
      if m.forEmpty {
        empties := empties + 1;
        if empties > limit && !emptyCommit {
          limit := limit + 1;
          emptyCommit := true;
        }
      }
      var signers := Tally(signCount, m.proposer) + {m.committer} + m.endorsersSig.Keys;
      signCount := signCount[m.proposer := signers];
      if |signers| + 1 >= n - (n - 1) / 3 {
        proposer := m.proposer;
        assert DecidesAt(msgs, k, c, n, proposer, emptyCommit);
        return;
      }
    }
    assert msgs[..|msgs|] == msgs;
    return NO_PROPOSER, false;
  }
}
