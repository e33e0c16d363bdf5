/** What the steps of a server do, record by record: when it votes and commits, what is added
    to a record, what a seal changes and which records it drops. */
module VbftEffects {
  import opened Common
  import opened VbftEndorsements
  import opened VbftPool

  // ---------- votes ----------

  /** A proposal of another peer, for a block above the chain, whose record has no commitment. The
      message must be built, and an empty block be there if it is asked for. */
  predicate MayCommit(s: Server, p: Proposal, forEmpty: bool, built: bool)
  {
    && p.proposer != s.index && s.pool.chained < p.block && p.block in s.pool.candidates
    && s.pool.candidates[p.block].committed.None? && s.pool.candidates[p.block].committedEmpty.None?
    && built && (forEmpty ==> p.hasEmpty)
  }

  /** A commitment is recorded and marked exactly then, and nothing else changes. */
  lemma CommitTells(s: Server, p: Proposal, forEmpty: bool, built: bool)
    ensures var t := CommitBlock(s, p, forEmpty, built);
      if MayCommit(s, p, forEmpty, built) then
        var c := s.pool.candidates[p.block];
        && t.commitments == s.commitments + {Vote(p, forEmpty)}
        && t.pool.candidates == s.pool.candidates[p.block :=
             if forEmpty then c.(committedEmpty := Some(p)) else c.(committed := Some(p))]
        && t == s.(commitments := t.commitments, pool := s.pool.(candidates := t.pool.candidates))
      else t == s
  {
  }

  /** The pool marks a record that has no commitment, and refuses any other. */
  lemma SetCommittedTells(p: Pool, m: Proposal, forEmpty: bool)
    ensures var r := SetProposalCommitted(p, m, forEmpty);
      && (r.Some? <==> m.block in p.candidates && p.candidates[m.block].committed.None?
                       && p.candidates[m.block].committedEmpty.None?)
      && (r.Some? ==>
            var c := p.candidates[m.block];
            r.value == p.(candidates := p.candidates[m.block :=
              if forEmpty then c.(committedEmpty := Some(m)) else c.(committed := Some(m))]))
  {
  }

  /** The pool marks a record that has no endorsement of this kind. A second one for the same proposer
      is taken as it is, and any other is refused. */
  lemma SetEndorsedTells(p: Pool, m: Proposal, forEmpty: bool)
    ensures var r := SetProposalEndorsed(p, m, forEmpty);
      if m.block !in p.candidates then r.None?
      else
        var c := p.candidates[m.block];
        var mark := if forEmpty then c.endorsedEmpty else c.endorsed;
        && (mark.None? ==>
              r == Some(p.(candidates := p.candidates[m.block :=
                if forEmpty then c.(endorsedEmpty := Some(m)) else c.(endorsed := Some(m))])))
        && (mark.Some? && forEmpty ==> r.None?)
        && (mark.Some? && !forEmpty ==> r == if mark.value.proposer == m.proposer then Some(p) else None)
  {
  }

  /** A proposal of another peer whose record is there. For a block: it is above the chain and the
      record has no endorsement at all. For an empty block: the record has no such endorsement. */
  predicate MayEndorse(s: Server, p: Proposal, forEmpty: bool, built: bool)
  {
    && p.proposer != s.index && p.block in s.pool.candidates && built
    && s.pool.candidates[p.block].endorsedEmpty.None?
    && (!forEmpty ==> s.pool.chained < p.block && s.pool.candidates[p.block].endorsed.None?)
  }

  /** An endorsement is recorded and marked exactly then, for an empty block where it was asked for
      or where endorsing has failed, and nothing else changes. */
  lemma EndorseTells(s: Server, p: Proposal, forEmpty: bool, failed: bool, built: bool)
    ensures var t := EndorseBlock(s, p, forEmpty, failed, built);
      if MayEndorse(s, p, forEmpty, built) then
        var c, empty := s.pool.candidates[p.block], forEmpty || failed;
        && t.endorsements == s.endorsements[p.block := VotesFor(s, p.block) + [Vote(p, empty)]]
        && t.pool.candidates == s.pool.candidates[p.block :=
             if empty then c.(endorsedEmpty := Some(p)) else c.(endorsed := Some(p))]
        && t == s.(endorsements := t.endorsements, pool := s.pool.(candidates := t.pool.candidates))
      else t == s
  {
  }

  // ---------- what is received ----------

  /** The record of a block, or a new one. */
  function RecordOf(p: Pool, block: nat): Candidate
  {
    if block in p.candidates then p.candidates[block]
    else Candidate(None, None, None, None, None, [], [], map[])
  }

  /** A list grows by the new entry, unless it has an empty entry or names the proposer. A
      commitment replaces it. */
  lemma AddTells(t: Table, endorser: nat, sig: EndorseSig, commitment: bool)
    ensures var u := AddEndorsement(t, endorser, sig, commitment);
      && u.Keys == t.Keys + {endorser} && (forall e :: e in t && e != endorser ==> u[e] == t[e])
      && (endorser !in t || commitment ==> u[endorser] == [sig])
      && (endorser in t && !commitment ==>
            && t[endorser] <= u[endorser] <= t[endorser] + [sig]
            && (|u[endorser]| > |t[endorser]| <==>
                !HasEmpty(t[endorser]) && (sig.forEmpty || !Names(t[endorser], sig.proposer))))
  {
  }

  /** Only the record of the block changes. */
  ghost predicate OnlyRecord(p: Pool, q: Pool, block: nat)
  {
    && q == p.(candidates := q.candidates) && q.candidates.Keys == p.candidates.Keys + {block}
    && forall b :: b in p.candidates && b != block ==> q.candidates[b] == p.candidates[b]
  }

  lemma {:induction false} ProposalOfTells(ps: seq<Proposal>, proposer: nat)
    ensures ProposalOf(ps, proposer).Some? <==> exists i :: 0 <= i < |ps| && ps[i].proposer == proposer
  {
    if ps != [] {
      ProposalOfTells(ps[1..], proposer);
      if exists i :: 0 <= i < |ps| && ps[i].proposer == proposer {
        var i :| 0 <= i < |ps| && ps[i].proposer == proposer;
        if i > 0 { assert ps[1..][i - 1].proposer == proposer; }
      }
    }
  }

  /** The first proposal of a proposer is added, with its signature as an endorsement. */
  lemma ProposalTells(p: Pool, m: Proposal)
    ensures var q, c := NewBlockProposal(p, m), RecordOf(p, m.block);
      && OnlyRecord(p, q, m.block)
      && (if ProposalOf(c.proposals, m.proposer).Some? then q.candidates[m.block] == c
          else
            var sig := EndorseSig(m.proposer, false, m.signature);
            q.candidates[m.block] == c.(proposals := c.proposals + [m],
                                        endorseSigs := AddEndorsement(c.endorseSigs, m.proposer, sig, false)))
  {
    hide AddEndorsement;
    ProposalOfTells(RecordOf(p, m.block).proposals, m.proposer);
  }

  lemma {:induction false} CommitOfTells(ms: seq<CommitMsg>, committer: nat)
    ensures CommitOf(ms, committer).Some? <==> exists i :: 0 <= i < |ms| && ms[i].committer == committer
  {
    if ms != [] {
      CommitOfTells(ms[1..], committer);
      if exists i :: 0 <= i < |ms| && ms[i].committer == committer {
        var i :| 0 <= i < |ms| && ms[i].committer == committer;
        if i > 0 { assert ms[1..][i - 1].committer == committer; }
      }
    }
  }

  /** An endorsement is added to the list of its endorser. */
  lemma EndorsementTells(p: Pool, block: nat, endorser: nat, sig: EndorseSig)
    ensures var q, c := AddSig(p, block, endorser, sig, false), RecordOf(p, block);
      OnlyRecord(p, q, block) &&
      q.candidates[block] == c.(endorseSigs := AddEndorsement(c.endorseSigs, endorser, sig, false))
  {
    hide AddEndorsement;
  }

  /** The lists after a commit message: its endorsers' signatures are added, and the entry of the
      committer is replaced by its own. */
  ghost predicate CommitAdded(t: Table, u: Table, m: CommitMsg)
  {
    && u.Keys == t.Keys + m.endorsersSig.Keys + {m.committer}
    && u[m.committer] == [EndorseSig(m.proposer, m.forEmpty, m.committerSig)]
    && (forall e :: e in t && e != m.committer && e !in m.endorsersSig ==> u[e] == t[e])
    && (forall e :: e in m.endorsersSig && e != m.committer ==>
          u[e] == AddEndorsement(t, e, EndorseSig(m.proposer, m.forEmpty, m.endorsersSig[e]), false)[e])
  }

  lemma TableTells(t: Table, m: CommitMsg)
    ensures var sig := EndorseSig(m.proposer, m.forEmpty, m.committerSig);
      CommitAdded(t, AddEndorsement(AddAll(t, m, m.endorsersSig.Keys), m.committer, sig, true), m)
  {
    hide HasEmpty, Names;
  }

  /** The first commitment of a committer is added, with all its signatures. */
  lemma CommitmentTells(p: Pool, m: CommitMsg)
    ensures var q, c := NewBlockCommitment(p, m), RecordOf(p, m.block);
      && OnlyRecord(p, q, m.block)
      && var d := q.candidates[m.block];
         if CommitOf(c.commitMsgs, m.committer).Some? then d == c
         else d == c.(commitMsgs := c.commitMsgs + [m], endorseSigs := d.endorseSigs)
              && CommitAdded(c.endorseSigs, d.endorseSigs, m)
  {
    hide AddEndorsement, AddAll, CommitAdded;
    CommitOfTells(RecordOf(p, m.block).commitMsgs, m.committer);
    TableTells(RecordOf(p, m.block).endorseSigs, m);
  }

  /** A message for another block than the one in progress changes nothing; any other does. */
  lemma ReceiveTells(s: Server, p: Proposal, m: CommitMsg, block: nat, endorser: nat, sig: EndorseSig)
    ensures Next(s, GetProposal(p)) == if p.block == s.current then s.(pool := NewBlockProposal(s.pool, p)) else s
    ensures Next(s, GetCommitment(m)) == if m.block == s.current then s.(pool := NewBlockCommitment(s.pool, m)) else s
    ensures Next(s, GetEndorsement(block, endorser, sig)) ==
      if block == s.current then s.(pool := AddSig(s.pool, block, endorser, sig, false)) else s
  {
    hide NewBlockProposal, NewBlockCommitment, AddSig;
  }

  // ---------- sealing ----------

  /** The block can be sealed: it was, by this proposer, or its signatures can be added and, if it is
      new, it executes. */
  predicate Seals(s: Server, proposer: nat, signed: bool, executed: bool)
  {
    var c := RecordOf(s.pool, s.current);
    if c.sealedBy.Some? then c.sealedBy.value == proposer else signed && (s.current > s.pool.chained ==> executed)
  }

  /** Sealing the block in progress moves on to the next one, extends the chain by a block that is
      new, and drops exactly the records that are older than the history. */
  lemma SealTells(s: Server, proposer: nat, signed: bool, executed: bool)
    requires Seals(s, proposer, signed, executed)
    ensures var t := SealBlock(s, s.current, proposer, signed, executed);
      var c := RecordOf(s.pool, s.current);
      && t.current == s.current + 1 && t.commitments == s.commitments && t.endorsements == s.endorsements
      && t.pool.chained == s.pool.chained + (if c.sealedBy.None? && s.current > s.pool.chained then 1 else 0)
      && t.pool.candidates.Keys ==
           (set b | b in s.pool.candidates.Keys + {s.current} && b + s.pool.historyLen >= s.current)
      && t.pool.candidates[s.current] == c.(sealedBy := Some(proposer))
      && (forall b :: b in t.pool.candidates && b != s.current ==> t.pool.candidates[b] == s.pool.candidates[b])
      && t.pool.historyLen == s.pool.historyLen && t.index == s.index
  {
  }

  /** Where sealing fails the record is marked at most: as sealed, if only the execution failed. */
  lemma SealFails(s: Server, proposer: nat, signed: bool, executed: bool)
    requires !Seals(s, proposer, signed, executed)
    ensures var t := SealBlock(s, s.current, proposer, signed, executed);
      var c := RecordOf(s.pool, s.current);
      && t == s.(pool := t.pool) && OnlyRecord(s.pool, t.pool, s.current)
      && t.pool.candidates[s.current] == if c.sealedBy.None? && signed then c.(sealedBy := Some(proposer)) else c
  {
  }

  /** Any other block is not sealed. */
  lemma SealIgnored(s: Server, block: nat, proposer: nat, signed: bool, executed: bool)
    requires block != s.current
    ensures SealBlock(s, block, proposer, signed, executed) == s
  {
  }

  /** A reload takes over the height of the ledger, and the block in progress is above it. */
  lemma ReloadTells(s: Server, height: nat)
    ensures var t := Next(s, Reload(height));
      && t.pool.chained >= height && t.pool.chained >= s.pool.chained && t.pool.chained in {height, s.pool.chained}
      && t.current > t.pool.chained && t.current >= s.current && t.current in {s.current, t.pool.chained + 1}
      && t == s.(pool := s.pool.(chained := t.pool.chained), current := t.current)
  {
  }
}
