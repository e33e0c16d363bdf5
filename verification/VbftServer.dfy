/** The block pool and the server's decisions as the source runs them, on mutable records
    with loops, each tied to the step of module VbftPool that it performs. */
module VbftServer {
  import opened Common
  import opened VbftEndorsements
  import opened VbftEffects
  import opened VbftPool

  /** The blocks below a limit, found in any order. */
  method TooOld(blocks: set<nat>, limit: nat) returns (free: set<nat>)
    ensures free == set b | b in blocks && b < limit
  {
    var todo := blocks;
    free := {};
    while todo != {}
      invariant todo <= blocks && free == set b | b in blocks - todo && b < limit
      decreases |todo|
    {
      var b :| b in todo;
      if b < limit {
        free := free + {b};
      }
      todo := todo - {b};
    }
  }

  /** The list of an endorser who is known already, with one more signature. */
  method Extended(sigs: seq<EndorseSig>, sig: EndorseSig) returns (list: seq<EndorseSig>)
    ensures list == AddTo(Some(sigs), sig, false)
  {
    for i := 0 to |sigs|
      invariant forall j :: 0 <= j < i ==> !sigs[j].forEmpty
    {
      if sigs[i].forEmpty {
        return sigs;
      }
    }
    if sig.forEmpty {
      return sigs + [sig];
    }
    for i := 0 to |sigs|
      invariant forall j :: 0 <= j < i ==> sigs[j].proposer != sig.proposer
    {
      if sigs[i].proposer == sig.proposer {
        return sigs;
      }
    }
    list := sigs + [sig];
  }

  ghost function WithSigs(p: Pool, block: nat, t: Table): Pool
    requires block in p.candidates
  {
    Update(p, block, p.candidates[block].(endorseSigs := t))
  }

  lemma AddNone(p: Pool, block: nat, m: CommitMsg)
    requires block in p.candidates
    ensures WithSigs(p, block, AddAll(p.candidates[block].endorseSigs, m, {})) == p
  {
    var c := p.candidates[block];
    assert AddAll(c.endorseSigs, m, {}) == c.endorseSigs;
    assert p.candidates[block := c] == p.candidates;
  }

  lemma UpdateTwice(p: Pool, block: nat, t: Table, u: Table)
    requires block in p.candidates
    ensures WithSigs(WithSigs(p, block, t), block, u) == WithSigs(p, block, u)
  {
    var c := p.candidates[block];
    assert p.candidates[block := c.(endorseSigs := t)][block := c.(endorseSigs := u)]
        == p.candidates[block := c.(endorseSigs := u)];
  }

  lemma AddNext(p: Pool, block: nat, m: CommitMsg, done: set<nat>, e: nat)
    requires block in p.candidates && done <= m.endorsersSig.Keys && e in m.endorsersSig.Keys && e !in done
    ensures var t := p.candidates[block].endorseSigs;
      var sig := EndorseSig(m.proposer, m.forEmpty, m.endorsersSig[e]);
      AddSig(WithSigs(p, block, AddAll(t, m, done)), block, e, sig, false)
      == WithSigs(p, block, AddAll(t, m, done + {e}))
  {
    hide AddTo;
    var c := p.candidates[block];
    var t := c.endorseSigs;
    var sig := EndorseSig(m.proposer, m.forEmpty, m.endorsersSig[e]);
    var added, next := AddAll(t, m, done), AddAll(t, m, done + {e});
    assert Lookup(added, e) == Lookup(t, e);
    assert AddEndorsement(added, e, sig, false) == next;
    UpdateTwice(p, block, added, next);
  }

  lemma AddCommitter(q: Pool, m: CommitMsg)
    requires m.block in q.candidates
    ensures var c := q.candidates[m.block];
      var t, sig := AddAll(c.endorseSigs, m, m.endorsersSig.Keys), EndorseSig(m.proposer, m.forEmpty, m.committerSig);
      AddSig(WithSigs(q, m.block, t), m.block, m.committer, sig, true)
      == WithSigs(q, m.block, AddEndorsement(t, m.committer, sig, true))
  {
    hide AddAll, AddEndorsement;
    var c := q.candidates[m.block];
    var t, sig := AddAll(c.endorseSigs, m, m.endorsersSig.Keys), EndorseSig(m.proposer, m.forEmpty, m.committerSig);
    UpdateTwice(q, m.block, t, AddEndorsement(t, m.committer, sig, true));
  }

  class BlockPool {
    var candidates: map<nat, Candidate>
    var chained: nat
    const historyLen: nat

    ghost function View(): Pool
      reads this
    {
      Pool(candidates, chained, historyLen)
    }

    constructor (historyLen: nat, chained: nat)
      ensures View() == Pool(map[], chained, historyLen)
    {
      candidates, this.chained, this.historyLen := map[], chained, historyLen;
    }

    method GetCandidate(block: nat) returns (c: Candidate)
      modifies this`candidates
      ensures View() == WithCandidate(old(View()), block) && c == View().candidates[block]
    {
      if block !in candidates {
        candidates := candidates[block := FRESH];
      }
      c := candidates[block];
    }

    method AddBlockEndorsement(block: nat, endorser: nat, sig: EndorseSig, commitment: bool)
      modifies this`candidates
      ensures View() == AddSig(old(View()), block, endorser, sig, commitment)
    {
      hide HasEmpty, Names;
      var c := GetCandidate(block);
      var list := [sig];
      if endorser in c.endorseSigs && !commitment {
        list := Extended(c.endorseSigs[endorser], sig);
      }
      candidates := candidates[block := c.(endorseSigs := c.endorseSigs[endorser := list])];
    }

    /** An error for a second proposal of a proposer with another signature. */
    method NewBlockProposal(m: Proposal) returns (ok: bool)
      modifies this`candidates
      ensures View() == VbftPool.NewBlockProposal(old(View()), m)
      ensures var earlier := ProposalOf(old(WithCandidate(View(), m.block)).candidates[m.block].proposals, m.proposer);
        ok <==> earlier.None? || earlier.value.signature == m.signature
    {
      hide AddSig;
      var c := GetCandidate(m.block);
      assert c.proposals[0..] == c.proposals;
      for i := 0 to |c.proposals|
        invariant forall j :: 0 <= j < i ==> c.proposals[j].proposer != m.proposer
        invariant ProposalOf(c.proposals, m.proposer) == ProposalOf(c.proposals[i..], m.proposer)
        invariant candidates == old(WithCandidate(View(), m.block).candidates)
      {
        if c.proposals[i].proposer == m.proposer {
          return c.proposals[i].signature == m.signature;
        }
      }
      candidates := candidates[m.block := c.(proposals := c.proposals + [m])];
      AddBlockEndorsement(m.block, m.proposer, EndorseSig(m.proposer, false, m.signature), false);
      ok := true;
    }

    /** The first commitment of a committer in a list, if there is one. */
    static method FindCommit(ms: seq<CommitMsg>, committer: nat) returns (r: Option<CommitMsg>)
      ensures r == CommitOf(ms, committer)
      ensures r.None? <==> forall j :: 0 <= j < |ms| ==> ms[j].committer != committer
    {
      assert ms[0..] == ms;
      for i := 0 to |ms|
        invariant forall j :: 0 <= j < i ==> ms[j].committer != committer
        invariant CommitOf(ms, committer) == CommitOf(ms[i..], committer)
      {
        if ms[i].committer == committer {
          return Some(ms[i]);
        }
      }
      r := None;
    }

    /** Adds the endorser signatures of a commitment, in any order. */
    method AddEndorsers(m: CommitMsg)
      requires m.block in candidates
      modifies this`candidates
      ensures View() == WithSigs(old(View()), m.block,
                                 AddAll(old(candidates)[m.block].endorseSigs, m, m.endorsersSig.Keys))
    {
      hide AddSig, AddAll;
      ghost var q, t := View(), candidates[m.block].endorseSigs;
      var todo := m.endorsersSig.Keys;
      assert m.endorsersSig.Keys - todo == {};
      AddNone(q, m.block, m);
      while todo != {}
        invariant todo <= m.endorsersSig.Keys
        invariant View() == WithSigs(q, m.block, AddAll(t, m, m.endorsersSig.Keys - todo))
        decreases |todo|
      {
        var e :| e in todo;
        AddNext(q, m.block, m, m.endorsersSig.Keys - todo, e);
        AddBlockEndorsement(m.block, e, EndorseSig(m.proposer, m.forEmpty, m.endorsersSig[e]), false);
        assert m.endorsersSig.Keys - (todo - {e}) == m.endorsersSig.Keys - todo + {e};
        todo := todo - {e};
      }
      assert m.endorsersSig.Keys - todo == m.endorsersSig.Keys;
    }

    /** One committer, one commitment; its endorsers are added in any order, itself last.
        An error for a second commitment to another block. */
    method NewBlockCommitment(m: CommitMsg) returns (ok: bool)
      modifies this`candidates
      ensures View() == VbftPool.NewBlockCommitment(old(View()), m)
      ensures var earlier := CommitOf(old(WithCandidate(View(), m.block)).candidates[m.block].commitMsgs, m.committer);
        ok <==> earlier.None? || earlier.value.blockHash == m.blockHash
    {
      hide AddSig, AddAll, AddEndorsement, AddTo, CommitOf;
      var c := GetCandidate(m.block);
      ghost var q := View();
      var earlier := FindCommit(c.commitMsgs, m.committer);
      if earlier.Some? {
        return earlier.value.blockHash == m.blockHash;
      }
      AddEndorsers(m);
      AddCommitter(q, m);
      AddBlockEndorsement(m.block, m.committer, EndorseSig(m.proposer, m.forEmpty, m.committerSig), true);
      c := candidates[m.block];
      candidates := candidates[m.block := c.(commitMsgs := c.commitMsgs + [m])];
      ok := true;
    }

    method SetProposalEndorsed(proposal: Proposal, forEmpty: bool) returns (ok: bool)
      modifies this`candidates
      ensures var r := VbftPool.SetProposalEndorsed(old(View()), proposal, forEmpty);
        ok == r.Some? && View() == (if ok then r.value else old(View()))
    {
      var b := proposal.block;
      if b !in candidates {
        return false;
      }
      var c := candidates[b];
      if !forEmpty {
        if c.endorsed.None? {
          candidates := candidates[b := c.(endorsed := Some(proposal))];
          return true;
        }
        return c.endorsed.value.proposer == proposal.proposer;
      }
      if c.endorsedEmpty.Some? {
        return false;
      }
      candidates := candidates[b := c.(endorsedEmpty := Some(proposal))];
      ok := true;
    }

    method SetProposalCommitted(proposal: Proposal, forEmpty: bool) returns (ok: bool)
      modifies this`candidates
      ensures var r := VbftPool.SetProposalCommitted(old(View()), proposal, forEmpty);
        ok == r.Some? && View() == (if ok then r.value else old(View()))
    {
      var b := proposal.block;
      if b !in candidates || candidates[b].committed.Some? || candidates[b].committedEmpty.Some? {
        return false;
      }
      var c := candidates[b];
      if forEmpty {
        candidates := candidates[b := c.(committedEmpty := Some(proposal))];
      } else {
        candidates := candidates[b := c.(committed := Some(proposal))];
      }
      ok := true;
    }

    /** Collects what is too old, and then deletes it. */
    method OnBlockSealed(block: nat)
      modifies this`candidates
      ensures View() == VbftPool.OnBlockSealed(old(View()), block)
    {
      if block <= historyLen {
        return;
      }
      var free := TooOld(candidates.Keys, block - historyLen);
      candidates := candidates - free;
    }
  }

  /** The server of consensus/vbft/service.go, as far as it votes. What it has voted is
      ghost: the source forgets it, the discipline is about it. */
  class Server {
    const index: nat
    const pool: BlockPool
    var current: nat
    ghost var endorsements: map<nat, seq<Vote>>
    ghost var commitments: set<Vote>

    ghost function View(): VbftPool.Server
      reads this, pool
    {
      VbftPool.Server(index, current, pool.View(), endorsements, commitments)
    }

    constructor (index: nat, pool: BlockPool)
      requires forall b :: b in pool.candidates ==>
        pool.candidates[b] == FRESH.(sealedBy := pool.candidates[b].sealedBy)
      ensures this.index == index && this.pool == pool && Start(View())
    {
      this.index, this.pool, current := index, pool, pool.chained + 1;
      endorsements, commitments := map[], {};
    }

    method EndorseBlock(proposal: Proposal, forEmpty0: bool, failed: bool, built: bool) returns (ok: bool)
      requires Inv(View())
      modifies this, pool`candidates
      ensures View() == VbftPool.EndorseBlock(old(View()), proposal, forEmpty0, failed, built)
      ensures Inv(View())
      ensures ok <==> (
        || proposal.proposer == index
        || (forEmpty0 && old(EndorsedForEmptyBlock(pool.View(), proposal.block)))
        || (!forEmpty0 && old(EndorsedForBlock(pool.View(), proposal.block)))
        || (built && proposal.block in old(pool.candidates)))
      ensures old(MayEndorse(View(), proposal, forEmpty0, built)) ==>
        var b, empty := proposal.block, forEmpty0 || failed;
        var c := old(pool.candidates)[b];
        && endorsements == old(endorsements[b := VotesFor(View(), b) + [Vote(proposal, empty)]])
        && pool.candidates == old(pool.candidates)[b :=
             if empty then c.(endorsedEmpty := Some(proposal)) else c.(endorsed := Some(proposal))]
        && commitments == old(commitments) && current == old(current)
      ensures !old(MayEndorse(View(), proposal, forEmpty0, built)) ==> View() == old(View())
    {
      hide Inv;
      EndorseTells(View(), proposal, forEmpty0, failed, built);
      EndorseKeeps(View(), proposal, forEmpty0, failed, built);
      var forEmpty, b := forEmpty0, proposal.block;
      ghost var was := View();
      if proposal.proposer == index {
        return true;
      }
      if !forEmpty && EndorsedForBlock(Pool(pool.candidates, pool.chained, pool.historyLen), b) {
        return true;
      } else if forEmpty && EndorsedForEmptyBlock(Pool(pool.candidates, pool.chained, pool.historyLen), b) {
        return true;
      }
      if !forEmpty && failed {
        forEmpty := true;
      }
      if !built {
        return false;
      }
      ok := pool.SetProposalEndorsed(proposal, forEmpty);
      if ok {
        endorsements := endorsements[b := VotesFor(was, b) + [Vote(proposal, forEmpty)]];
      }
    }

    method CommitBlock(proposal: Proposal, forEmpty: bool, built: bool) returns (ok: bool)
      requires Inv(View())
      modifies this, pool`candidates
      ensures View() == VbftPool.CommitBlock(old(View()), proposal, forEmpty, built)
      ensures Inv(View())
      ensures ok <==> (
        || proposal.proposer == index
        || old(CommittedForBlock(pool.View(), proposal.block))
        || ((forEmpty ==> proposal.hasEmpty) && built && proposal.block in old(pool.candidates)))
      ensures old(MayCommit(View(), proposal, forEmpty, built)) ==>
        var c := old(pool.candidates)[proposal.block];
        && commitments == old(commitments) + {Vote(proposal, forEmpty)}
        && pool.candidates == old(pool.candidates)[proposal.block :=
             if forEmpty then c.(committedEmpty := Some(proposal)) else c.(committed := Some(proposal))]
        && endorsements == old(endorsements) && current == old(current)
      ensures !old(MayCommit(View(), proposal, forEmpty, built)) ==> View() == old(View())
    {
      hide Inv;
      CommitTells(View(), proposal, forEmpty, built);
      CommitKeeps(View(), proposal, forEmpty, built);
      if proposal.proposer == index {
        return true;
      }
      if CommittedForBlock(Pool(pool.candidates, pool.chained, pool.historyLen), proposal.block) {
        return true;
      }
      if forEmpty && !proposal.hasEmpty {
        return false;
      }
      if !built {
        return false;
      }
      ok := pool.SetProposalCommitted(proposal, forEmpty);
      if ok {
        commitments := commitments + {Vote(proposal, forEmpty)};
      }
    }

    /** A proposal for another block than the one in progress is not looked at. */
    method ProcessProposal(m: Proposal) returns (ok: bool)
      requires Inv(View())
      modifies pool`candidates
      ensures View() == Next(old(View()), GetProposal(m)) && Inv(View())
      ensures m.block != current ==> ok
    {
      hide Inv, VbftPool.NewBlockProposal;
      StepKeeps(View(), GetProposal(m));
      ok := true;
      if m.block == current {
        ok := pool.NewBlockProposal(m);
      }
    }

    method ProcessEndorsement(block: nat, endorser: nat, sig: EndorseSig)
      requires Inv(View())
      modifies pool`candidates
      ensures View() == Next(old(View()), GetEndorsement(block, endorser, sig)) && Inv(View())
    {
      hide Inv, AddSig;
      StepKeeps(View(), GetEndorsement(block, endorser, sig));
      if block == current {
        pool.AddBlockEndorsement(block, endorser, sig, false);
      }
    }

    method ProcessCommitment(m: CommitMsg) returns (ok: bool)
      requires Inv(View())
      modifies pool`candidates
      ensures View() == Next(old(View()), GetCommitment(m)) && Inv(View())
      ensures m.block != current ==> ok
    {
      hide Inv, VbftPool.NewBlockCommitment;
      StepKeeps(View(), GetCommitment(m));
      ok := true;
      if m.block == current {
        ok := pool.NewBlockCommitment(m);
      }
    }

    /** The ledger has saved blocks up to `height`, and the store is reloaded from it. */
    method HandleBlockPersistCompleted(height: nat)
      requires Inv(View())
      modifies this`current, pool`chained
      ensures View() == Next(old(View()), Reload(height)) && Inv(View())
    {
      hide Inv;
      StepKeeps(View(), Reload(height));
      if height > pool.chained {
        pool.chained := height;
      }
      if pool.chained >= current {
        current := pool.chained + 1;
      }
    }

    /** A late seal is ignored. An error for a block that is still to come, that another
        proposer sealed, or that cannot be signed or executed. */
    method SealBlock(block: nat, proposer: nat, signed: bool, executed: bool) returns (ok: bool)
      requires Inv(View())
      modifies this`current, pool
      ensures View() == VbftPool.SealBlock(old(View()), block, proposer, signed, executed)
      ensures Inv(View())
      ensures block != old(current) ==> (ok <==> block < old(current))
      ensures block == old(current) ==>
        var seal := old(WithCandidate(pool.View(), block)).candidates[block].sealedBy;
        ok <==> if seal.Some? then seal.value == proposer else signed && (block > old(pool.chained) ==> executed)
    {
      hide Inv, VbftPool.OnBlockSealed;
      SealKeeps(View(), block, proposer, signed, executed);
      if block < current {
        return true;
      } else if block > current {
        return false;
      }
      var c := pool.GetCandidate(block);
      if c.sealedBy.Some? && c.sealedBy.value != proposer {
        return false;
      }
      ok := true;
      if c.sealedBy.None? {
        if !signed {
          return false;
        }
        pool.candidates := pool.candidates[block := c.(sealedBy := Some(proposer))];
        if block > pool.chained {
          if !executed {
            return false;
          }
          pool.chained := pool.chained + 1;
        }
      } else {
        assert c.(sealedBy := Some(proposer)) == c;
        assert pool.candidates[block := c] == pool.candidates;
      }
      pool.OnBlockSealed(block);
      if block >= current {
        current := block + 1;
      }
    }
  }
}
