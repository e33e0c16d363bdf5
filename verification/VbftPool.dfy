/** The block pool of consensus/vbft/block_pool.go with the two decisions that a server
    takes over it (`endorseBlock` and `commitBlock` of consensus/vbft/service.go), as
    steps, and what every run of such steps keeps. */
module VbftPool {
  import opened Common
  import opened VbftEndorsements

  datatype Proposal = Proposal(block: nat, proposer: nat, signature: Bytes, hasEmpty: bool)

  /** `CandidateInfo`. */
  datatype Candidate = Candidate(
    endorsed: Option<Proposal>, endorsedEmpty: Option<Proposal>,
    committed: Option<Proposal>, committedEmpty: Option<Proposal>,
    sealedBy: Option<nat>, proposals: seq<Proposal>, commitMsgs: seq<CommitMsg>, endorseSigs: Table)

  const FRESH := Candidate(None, None, None, None, None, [], [], map[])

  datatype Pool = Pool(candidates: map<nat, Candidate>, chained: nat, historyLen: nat)

  /** An endorsement or a commitment that this server has made. */
  datatype Vote = Vote(proposal: Proposal, forEmpty: bool)

  /** The pool, the number of the block in progress, and what the server has ever done: for
      every block its endorsements in order, and its commitments. */
  datatype Server = Server(index: nat, current: nat, pool: Pool,
                           endorsements: map<nat, seq<Vote>>, commitments: set<Vote>)

  /** `getCandidateInfoLocked`: creates a missing record. */
  function WithCandidate(p: Pool, block: nat): (r: Pool)
    ensures block in r.candidates && r.chained == p.chained && r.historyLen == p.historyLen
  {
    if block in p.candidates then p else p.(candidates := p.candidates[block := FRESH])
  }

  function Update(p: Pool, block: nat, c: Candidate): Pool
  {
    p.(candidates := p.candidates[block := c])
  }

  predicate EndorsedForBlock(p: Pool, block: nat)
  {
    p.chained >= block ||
    (block in p.candidates && (p.candidates[block].endorsed.Some? || p.candidates[block].endorsedEmpty.Some?))
  }

  predicate EndorsedForEmptyBlock(p: Pool, block: nat)
  {
    block in p.candidates && p.candidates[block].endorsedEmpty.Some?
  }

  predicate CommittedForBlock(p: Pool, block: nat)
  {
    p.chained >= block ||
    (block in p.candidates && (p.candidates[block].committed.Some? || p.candidates[block].committedEmpty.Some?))
  }

  /** `setProposalEndorsed`, `None` for an error. */
  function SetProposalEndorsed(p: Pool, proposal: Proposal, forEmpty: bool): Option<Pool>
  {
    if proposal.block !in p.candidates then None
    else
      var c := p.candidates[proposal.block];
      if !forEmpty then
        if c.endorsed.None? then Some(Update(p, proposal.block, c.(endorsed := Some(proposal))))
        else if c.endorsed.value.proposer == proposal.proposer then Some(p)
        else None
      else if c.endorsedEmpty.Some? then None
      else Some(Update(p, proposal.block, c.(endorsedEmpty := Some(proposal))))
  }

  /** `setProposalCommitted`, `None` for an error. */
  function SetProposalCommitted(p: Pool, proposal: Proposal, forEmpty: bool): Option<Pool>
  {
    if proposal.block !in p.candidates then None
    else
      var c := p.candidates[proposal.block];
      if c.committed.Some? || c.committedEmpty.Some? then None
      else if forEmpty then Some(Update(p, proposal.block, c.(committedEmpty := Some(proposal))))
      else Some(Update(p, proposal.block, c.(committed := Some(proposal))))
  }

  function VotesFor(s: Server, block: nat): seq<Vote>
  {
    if block in s.endorsements then s.endorsements[block] else []
  }

  /** `endorseBlock`. `failed` is the answer of `endorseFailed`, `built` says that the
      message could be constructed. */
  function EndorseBlock(s: Server, proposal: Proposal, forEmpty: bool, failed: bool, built: bool): Server
  {
    var b := proposal.block;
    if proposal.proposer == s.index then s
    else if !forEmpty && EndorsedForBlock(s.pool, b) then s
    else if forEmpty && EndorsedForEmptyBlock(s.pool, b) then s
    else
      var empty := forEmpty || failed;
      if !built then s
      else
        match SetProposalEndorsed(s.pool, proposal, empty)
        case None => s
        case Some(pool) =>
          s.(pool := pool, endorsements := s.endorsements[b := VotesFor(s, b) + [Vote(proposal, empty)]])
  }

  /** `commitBlock`. */
  function CommitBlock(s: Server, proposal: Proposal, forEmpty: bool, built: bool): Server
  {
    if proposal.proposer == s.index || CommittedForBlock(s.pool, proposal.block) then s
    else if (forEmpty && !proposal.hasEmpty) || !built then s
    else
      match SetProposalCommitted(s.pool, proposal, forEmpty)
      case None => s
      case Some(pool) => s.(pool := pool, commitments := s.commitments + {Vote(proposal, forEmpty)})
  }

  function AddSig(p: Pool, block: nat, endorser: nat, sig: EndorseSig, commitment: bool): Pool
  {
    var q := WithCandidate(p, block);
    var c := q.candidates[block];
    Update(q, block, c.(endorseSigs := AddEndorsement(c.endorseSigs, endorser, sig, commitment)))
  }

  /** The first proposal of a proposer. */
  function ProposalOf(ps: seq<Proposal>, proposer: nat): Option<Proposal>
  {
    if ps == [] then None else if ps[0].proposer == proposer then Some(ps[0]) else ProposalOf(ps[1..], proposer)
  }

  /** The first commitment of a committer. */
  function CommitOf(ms: seq<CommitMsg>, committer: nat): Option<CommitMsg>
  {
    if ms == [] then None else if ms[0].committer == committer then Some(ms[0]) else CommitOf(ms[1..], committer)
  }

  /** `newBlockProposal`: a second proposal of the same proposer changes nothing. */
  function NewBlockProposal(p: Pool, m: Proposal): Pool
  {
    var q := WithCandidate(p, m.block);
    var c := q.candidates[m.block];
    if exists i :: 0 <= i < |c.proposals| && c.proposals[i].proposer == m.proposer then q
    else
      AddSig(Update(q, m.block, c.(proposals := c.proposals + [m])), m.block, m.proposer,
             EndorseSig(m.proposer, false, m.signature), false)
  }

  /** The table after the endorser signatures of `done` in a commit message, in any order. */
  function AddAll(t: Table, m: CommitMsg, done: set<nat>): Table
    requires done <= m.endorsersSig.Keys
  {
    map e | e in t.Keys + done ::
      if e in done then AddTo(Lookup(t, e), EndorseSig(m.proposer, m.forEmpty, m.endorsersSig[e]), false)
      else t[e]
  }

  /** `newBlockCommitment`: one committer, one commitment. */
  function NewBlockCommitment(p: Pool, m: CommitMsg): Pool
  {
    var q := WithCandidate(p, m.block);
    var c := q.candidates[m.block];
    if exists i :: 0 <= i < |c.commitMsgs| && c.commitMsgs[i].committer == m.committer then q
    else
      var t := AddEndorsement(AddAll(c.endorseSigs, m, m.endorsersSig.Keys), m.committer,
                              EndorseSig(m.proposer, m.forEmpty, m.committerSig), true);
      Update(q, m.block, c.(endorseSigs := t, commitMsgs := c.commitMsgs + [m]))
  }

  /** `onBlockSealed`: forgets the records that are older than the history. */
  function OnBlockSealed(p: Pool, block: nat): Pool
  {
    if block <= p.historyLen then p
    else p.(candidates := map b | b in p.candidates && b >= block - p.historyLen :: p.candidates[b])
  }

  /** `sealBlock`: only the block in progress is sealed. Its record is marked, the chain grows
      if the block is new and executes, and where that succeeds old records are dropped and
      the next block is in progress. `signed` and `executed` say that adding the signatures
      and executing the block succeed. */
  function SealBlock(s: Server, block: nat, proposer: nat, signed: bool, executed: bool): Server
  {
    if block != s.current then s
    else
      var q := WithCandidate(s.pool, block);
      var c := q.candidates[block];
      if c.sealedBy.Some? && c.sealedBy.value != proposer then s.(pool := q)
      else if c.sealedBy.None? && !signed then s.(pool := q)
      else
        var marked := Update(q, block, c.(sealedBy := Some(proposer)));
        var grows := c.sealedBy.None? && block > q.chained;
        if grows && !executed then s.(pool := marked)
        else
          var grown := if grows then marked.(chained := q.chained + 1) else marked;
          s.(pool := OnBlockSealed(grown, block), current := block + 1)
  }

  /** What is received reaches the pool for the block in progress only. */
  function Receive(s: Server, block: nat, pool: Pool): Server
  {
    if block == s.current then s.(pool := pool) else s
  }

  /** The ledger has blocks up to `height`: the store takes them over, and the block in
      progress comes after them. */
  function ReloadLedger(s: Server, height: nat): Server
  {
    var chained := if height > s.pool.chained then height else s.pool.chained;
    s.(pool := s.pool.(chained := chained), current := if chained >= s.current then chained + 1 else s.current)
  }

  datatype Step =
    | Endorse(proposal: Proposal, forEmpty: bool, failed: bool, built: bool)
    | Commit(proposal: Proposal, forEmpty: bool, built: bool)
    | GetProposal(proposal: Proposal)
    | GetEndorsement(block: nat, endorser: nat, sig: EndorseSig)
    | GetCommitment(msg: CommitMsg)
    | Seal(block: nat, proposer: nat, signed: bool, executed: bool)
    | Reload(height: nat)

  function Next(s: Server, step: Step): Server
  {
    match step
    case Endorse(p, e, failed, built) => EndorseBlock(s, p, e, failed, built)
    case Commit(p, e, built) => CommitBlock(s, p, e, built)
    case GetProposal(p) => Receive(s, p.block, NewBlockProposal(s.pool, p))
    case GetEndorsement(b, e, sig) => Receive(s, b, AddSig(s.pool, b, e, sig, false))
    case GetCommitment(m) => Receive(s, m.block, NewBlockCommitment(s.pool, m))
    case Seal(b, p, signed, executed) => SealBlock(s, b, p, signed, executed)
    case Reload(h) => ReloadLedger(s, h)
  }

  // ---------- what every run keeps ----------

  /** At most one vote for a proposal, then at most one for an empty block. */
  predicate InTurn(v: seq<Vote>)
  {
    |v| <= 2 && (|v| == 2 ==> !v[0].forEmpty && v[1].forEmpty)
  }

  /** The votes that a record stands for. */
  function Marks(c: Candidate): (v: seq<Vote>)
    ensures InTurn(v)
  {
    (if c.endorsed.Some? then [Vote(c.endorsed.value, false)] else []) +
    (if c.endorsedEmpty.Some? then [Vote(c.endorsedEmpty.value, true)] else [])
  }

  /** The votes for a block are those that its record stands for. A record that is gone was
      dropped, and its block is over, or it is still to come. */
  predicate VotesStand(s: Server, b: nat)
  {
    var v := VotesFor(s, b);
    if b in s.pool.candidates then v == Marks(s.pool.candidates[b]) else InTurn(v) && (b >= s.current ==> v == [])
  }

  ghost predicate VotesInv(s: Server)
  {
    forall b: nat :: VotesStand(s, b)
  }

  /** A commitment is marked in its record, or that was dropped, and its block is over. */
  ghost predicate Standing(s: Server, v: Vote)
  {
    var b := v.proposal.block;
    if b in s.pool.candidates then
      var c := s.pool.candidates[b];
      if v.forEmpty then c.committedEmpty == Some(v.proposal) && c.committed.None?
      else c.committed == Some(v.proposal) && c.committedEmpty.None?
    else b < s.current
  }

  ghost predicate TablesInv(p: Pool)
  {
    forall b :: b in p.candidates ==> TableOk(p.candidates[b].endorseSigs)
  }

  /** One commitment for a block. */
  ghost predicate CommitsOnce(votes: set<Vote>)
  {
    forall v, w :: v in votes && w in votes && v.proposal.block == w.proposal.block ==> v == w
  }

  ghost predicate CommitsInv(s: Server)
  {
    (forall v :: v in s.commitments ==> Standing(s, v)) && CommitsOnce(s.commitments)
  }

  ghost predicate Inv(s: Server)
  {
    VotesInv(s) && TablesInv(s.pool) && CommitsInv(s) && s.pool.chained < s.current
  }

  predicate SameMarks(c: Candidate, d: Candidate)
  {
    c.endorsed == d.endorsed && c.endorsedEmpty == d.endorsedEmpty &&
    c.committed == d.committed && c.committedEmpty == d.committedEmpty
  }

  /** The pool changed only in what is received, by a record for the block in progress, or
      forgot only blocks that are over. */
  ghost predicate KeepsMarks(s: Server, t: Server)
  {
    && s.current <= t.current
    && var p, q := s.pool.candidates, t.pool.candidates;
       && (forall b :: b in p && b in q ==> SameMarks(p[b], q[b]))
       && (forall b :: b in q && b !in p ==> SameMarks(FRESH, q[b]) && s.current <= b)
       && (forall b :: b in p && b !in q ==> b < t.current)
  }

  lemma KeepsMarksKeepsInv(s: Server, t: Server)
    requires Inv(s) && KeepsMarks(s, t) && TablesInv(t.pool) && t.pool.chained < t.current
    requires t.commitments == s.commitments && t.endorsements == s.endorsements
    ensures Inv(t)
  {
    hide TablesInv, CommitsOnce;
    forall b: nat ensures VotesStand(t, b) {
      assert VotesStand(s, b);
    }
    forall v | v in t.commitments ensures Standing(t, v) { assert Standing(s, v); }
  }

  /** A record gets marks, and nothing else changes. */
  ghost predicate Marked(p: Pool, q: Pool, b: nat, d: Candidate)
  {
    && b in p.candidates && q == p.(candidates := p.candidates[b := d])
    && d.endorseSigs == p.candidates[b].endorseSigs
  }

  lemma MarkedTables(p: Pool, q: Pool, b: nat, d: Candidate)
    requires TablesInv(p) && Marked(p, q, b, d)
    ensures TablesInv(q)
  {
    forall x | x in q.candidates ensures TableOk(q.candidates[x].endorseSigs) {
      assert TableOk(p.candidates[x].endorseSigs);
    }
  }

  lemma MarkedCommits(s: Server, t: Server, b: nat, d: Candidate)
    requires CommitsInv(s) && Marked(s.pool, t.pool, b, d)
    requires t.commitments == s.commitments && t.current == s.current
    requires var c := s.pool.candidates[b]; d.committed == c.committed && d.committedEmpty == c.committedEmpty
    ensures CommitsInv(t)
  {
    forall v | v in t.commitments ensures Standing(t, v) { assert Standing(s, v); }
  }

  lemma MarkedVotes(s: Server, t: Server, b: nat, d: Candidate)
    requires VotesInv(s) && Marked(s.pool, t.pool, b, d) && t.current == s.current
    requires t.endorsements == s.endorsements[b := Marks(d)]
    ensures VotesInv(t)
  {
    hide Marks, InTurn;
    forall x: nat ensures VotesStand(t, x) {
      if x != b { assert VotesStand(s, x); }
    }
  }

  /** What an endorsement that goes through changes. */
  lemma EndorseMarks(s: Server, t: Server, p: Proposal, forEmpty: bool, failed: bool, built: bool)
    requires t == EndorseBlock(s, p, forEmpty, failed, built) && t != s
    ensures var b, empty := p.block, forEmpty || failed;
      b in s.pool.candidates && b in t.pool.candidates &&
      var c, d := s.pool.candidates[b], t.pool.candidates[b];
      && Marked(s.pool, t.pool, b, d) && d.committed == c.committed && d.committedEmpty == c.committedEmpty
      && t.commitments == s.commitments && t.current == s.current && Marks(d) == Marks(c) + [Vote(p, empty)]
      && t.endorsements == s.endorsements[b := VotesFor(s, b) + [Vote(p, empty)]]
  {
  }

  lemma EndorseKeeps(s: Server, p: Proposal, forEmpty: bool, failed: bool, built: bool)
    requires Inv(s)
    ensures Inv(EndorseBlock(s, p, forEmpty, failed, built))
  {
    hide EndorseBlock, TablesInv, CommitsInv, Marks;
    var t := EndorseBlock(s, p, forEmpty, failed, built);
    if t != s {
      EndorseMarks(s, t, p, forEmpty, failed, built);
      var b := p.block;
      var d := t.pool.candidates[b];
      assert VotesStand(s, b);
      MarkedTables(s.pool, t.pool, b, d);
      MarkedCommits(s, t, b, d);
      MarkedVotes(s, t, b, d);
    }
  }

  /** The first commitment for a block stands alone. */
  lemma FirstCommitment(s: Server, t: Server, v: Vote, d: Candidate)
    requires CommitsInv(s) && Marked(s.pool, t.pool, v.proposal.block, d) && t.current == s.current
    requires var c := s.pool.candidates[v.proposal.block]; c.committed.None? && c.committedEmpty.None?
    requires Standing(t, v) && t.commitments == s.commitments + {v}
    ensures CommitsInv(t)
  {
    forall w | w in s.commitments
      ensures Standing(t, w) && w.proposal.block != v.proposal.block
    {
      assert Standing(s, w);
    }
  }

  lemma SameVotes(s: Server, t: Server, b: nat, d: Candidate)
    requires VotesInv(s) && Marked(s.pool, t.pool, b, d) && t.endorsements == s.endorsements && t.current == s.current
    requires Marks(d) == Marks(s.pool.candidates[b])
    ensures VotesInv(t)
  {
    hide Marks, InTurn;
    forall x: nat ensures VotesStand(t, x) {
      assert VotesStand(s, x);
    }
  }

  lemma CommitKeeps(s: Server, p: Proposal, forEmpty: bool, built: bool)
    requires Inv(s)
    ensures Inv(CommitBlock(s, p, forEmpty, built))
  {
    var t := CommitBlock(s, p, forEmpty, built);
    if t != s {
      hide TablesInv, CommitsInv, VotesInv;
      var d := t.pool.candidates[p.block];
      assert Marked(s.pool, t.pool, p.block, d);
      assert Standing(t, Vote(p, forEmpty));
      SameVotes(s, t, p.block, d);
      MarkedTables(s.pool, t.pool, p.block, d);
      FirstCommitment(s, t, Vote(p, forEmpty), d);
    }
  }

  lemma AddAllOk(t: Table, m: CommitMsg)
    requires TableOk(t)
    ensures TableOk(AddAll(t, m, m.endorsersSig.Keys))
  {
    var added := AddAll(t, m, m.endorsersSig.Keys);
    forall e | e in added ensures ListOk(added[e]) {
      if e in m.endorsersSig {
        AddKeeps(t, e, EndorseSig(m.proposer, m.forEmpty, m.endorsersSig[e]), false);
      }
    }
  }

  /** The record of a block is created or changed, in what it received only. */
  ghost predicate Received(p: Pool, q: Pool, b: nat)
  {
    && TablesInv(q) && q.chained == p.chained && q.historyLen == p.historyLen
    && q.candidates.Keys == p.candidates.Keys + {b}
    && (forall x :: x in p.candidates && x != b ==> q.candidates[x] == p.candidates[x])
    && SameMarks(if b in p.candidates then p.candidates[b] else FRESH, q.candidates[b])
  }

  lemma ReceivedTables(p: Pool, q: Pool, b: nat)
    requires TablesInv(p) && b in q.candidates && TableOk(q.candidates[b].endorseSigs)
    requires q.candidates.Keys == p.candidates.Keys + {b}
    requires forall x :: x in p.candidates && x != b ==> q.candidates[x] == p.candidates[x]
    ensures TablesInv(q)
  {
    hide TableOk;
  }

  lemma CandidateTable(p: Pool, block: nat)
    requires TablesInv(p)
    ensures TableOk(WithCandidate(p, block).candidates[block].endorseSigs)
  {
  }

  lemma AddSigKeeps(p: Pool, block: nat, endorser: nat, sig: EndorseSig, commitment: bool)
    requires TablesInv(p)
    ensures Received(p, AddSig(p, block, endorser, sig, commitment), block)
  {
    hide TablesInv, AddEndorsement;
    var c := WithCandidate(p, block).candidates[block];
    CandidateTable(p, block);
    AddKeeps(c.endorseSigs, endorser, sig, commitment);
    ReceivedTables(p, AddSig(p, block, endorser, sig, commitment), block);
  }

  lemma ProposalKeeps(p: Pool, m: Proposal)
    requires TablesInv(p)
    ensures Received(p, NewBlockProposal(p, m), m.block)
  {
    hide TablesInv, AddEndorsement;
    var c := WithCandidate(p, m.block).candidates[m.block];
    CandidateTable(p, m.block);
    AddKeeps(c.endorseSigs, m.proposer, EndorseSig(m.proposer, false, m.signature), false);
    ReceivedTables(p, NewBlockProposal(p, m), m.block);
  }

  lemma CommitmentKeeps(p: Pool, m: CommitMsg)
    requires TablesInv(p)
    ensures Received(p, NewBlockCommitment(p, m), m.block)
  {
    hide TablesInv, AddEndorsement, AddAll;
    var c := WithCandidate(p, m.block).candidates[m.block];
    CandidateTable(p, m.block);
    AddAllOk(c.endorseSigs, m);
    AddKeeps(AddAll(c.endorseSigs, m, m.endorsersSig.Keys), m.committer,
             EndorseSig(m.proposer, m.forEmpty, m.committerSig), true);
    ReceivedTables(p, NewBlockCommitment(p, m), m.block);
  }

  lemma MarksStay(c: Candidate)
    ensures SameMarks(c, c) && forall seal :: SameMarks(c, c.(sealedBy := seal))
  {
  }

  /** A message for any block leaves the server in order. */
  lemma ReceiveKeeps(s: Server, block: nat, q: Pool)
    requires Inv(s) && Received(s.pool, q, block)
    ensures Inv(Receive(s, block, q))
  {
    hide TablesInv, VotesInv, CommitsInv, SameMarks;
    if block == s.current {
      var t := s.(pool := q);
      forall b | b in s.pool.candidates && b in q.candidates
        ensures SameMarks(s.pool.candidates[b], q.candidates[b])
      {
        MarksStay(s.pool.candidates[b]);
      }
      assert KeepsMarks(s, t);
      KeepsMarksKeepsInv(s, t);
    }
  }

  /** A record that is marked as sealed is changed in what it received only. */
  lemma SealReceived(p: Pool, block: nat, seal: Option<nat>)
    requires TablesInv(p)
    ensures var q := WithCandidate(p, block);
      Received(p, q, block) && Received(p, Update(q, block, q.candidates[block].(sealedBy := seal)), block)
  {
    hide TablesInv;
    var q := WithCandidate(p, block);
    CandidateTable(p, block);
    ReceivedTables(p, q, block);
    ReceivedTables(p, Update(q, block, q.candidates[block].(sealedBy := seal)), block);
  }

  /** Going on to the next block drops only records of blocks that are over. */
  lemma AdvanceKeeps(s: Server, chained: nat)
    requires Inv(s) && s.current in s.pool.candidates && s.pool.chained <= chained <= s.current
    ensures Inv(s.(pool := OnBlockSealed(s.pool.(chained := chained), s.current), current := s.current + 1))
  {
    hide VotesInv, CommitsInv, SameMarks, TableOk;
    var t := s.(pool := OnBlockSealed(s.pool.(chained := chained), s.current), current := s.current + 1);
    forall b | b in s.pool.candidates && b in t.pool.candidates
      ensures SameMarks(s.pool.candidates[b], t.pool.candidates[b])
    {
      MarksStay(s.pool.candidates[b]);
    }
    KeepsMarksKeepsInv(s, t);
  }

  /** Whatever is sealed, and however often that fails, the server stays in order: what is
      forgotten is over, and gets no record again. */
  lemma SealKeeps(s: Server, block: nat, proposer: nat, signed: bool, executed: bool)
    requires Inv(s)
    ensures Inv(SealBlock(s, block, proposer, signed, executed))
  {
    if block == s.current {
      hide TablesInv, VotesInv, CommitsInv, Received, OnBlockSealed;
      var q := WithCandidate(s.pool, block);
      var c := q.candidates[block];
      SealReceived(s.pool, block, Some(proposer));
      ReceiveKeeps(s, block, q);
      var marked := Update(q, block, c.(sealedBy := Some(proposer)));
      ReceiveKeeps(s, block, marked);
      var grows := c.sealedBy.None? && block > q.chained;
      AdvanceKeeps(s.(pool := marked), if grows then q.chained + 1 else q.chained);
    }
  }

  lemma SameTables(p: Pool, q: Pool)
    requires TablesInv(p) && q.candidates == p.candidates
    ensures TablesInv(q)
  {
  }

  lemma ReloadKeeps(s: Server, h: nat)
    requires Inv(s)
    ensures Inv(ReloadLedger(s, h))
  {
    hide VotesInv, TablesInv, CommitsInv;
    var t := ReloadLedger(s, h);
    SameTables(s.pool, t.pool);
    KeepsMarksKeepsInv(s, t);
  }

  lemma StepKeeps(s: Server, step: Step)
    requires Inv(s)
    ensures Inv(Next(s, step))
  {
    hide EndorseBlock, CommitBlock, SealBlock, NewBlockProposal, NewBlockCommitment, AddSig, VotesInv,
         TablesInv, CommitsInv, Received, Receive, ReloadLedger;
    match step
    case Endorse(p, e, failed, built) => EndorseKeeps(s, p, e, failed, built);
    case Commit(p, e, built) => CommitKeeps(s, p, e, built);
    case GetProposal(p) =>
      ProposalKeeps(s.pool, p);
      ReceiveKeeps(s, p.block, NewBlockProposal(s.pool, p));
    case GetEndorsement(b, e, sig) =>
      AddSigKeeps(s.pool, b, e, sig, false);
      ReceiveKeeps(s, b, AddSig(s.pool, b, e, sig, false));
    case GetCommitment(m) =>
      CommitmentKeeps(s.pool, m);
      ReceiveKeeps(s, m.block, NewBlockCommitment(s.pool, m));
    case Seal(b, p, signed, executed) => SealKeeps(s, b, p, signed, executed);
    case Reload(h) => ReloadKeeps(s, h);
  }

  ghost predicate Run(states: seq<Server>, steps: seq<Step>)
  {
    && |states| == |steps| + 1
    && forall i :: 0 <= i < |steps| ==> states[i + 1] == Next(states[i], steps[i])
  }

  /** The pool as it is after the start: whatever history is loaded, nothing is voted. */
  ghost predicate Start(s: Server)
  {
    && s.endorsements == map[] && s.commitments == {} && s.current == s.pool.chained + 1
    && forall b :: b in s.pool.candidates ==>
         var c := s.pool.candidates[b]; c == FRESH.(sealedBy := c.sealedBy)
  }

  lemma StartInv(s: Server)
    requires Start(s)
    ensures Inv(s)
  {
  }

  lemma {:induction false} RunInv(states: seq<Server>, steps: seq<Step>, k: nat)
    requires Run(states, steps) && Start(states[0]) && k < |states|
    ensures Inv(states[k])
  {
    if k > 0 {
      hide Inv, Next;
      RunInv(states, steps, k - 1);
      assert states[k - 1 + 1] == Next(states[k - 1], steps[k - 1]);
      StepKeeps(states[k - 1], steps[k - 1]);
    } else {
      StartInv(states[0]);
    }
  }

  /** What is recorded is never taken back, and the block in progress never goes back. */
  ghost predicate Grows(s: Server, t: Server)
  {
    && s.commitments <= t.commitments && s.current <= t.current && s.pool.chained <= t.pool.chained
    && forall b: nat :: VotesFor(s, b) <= VotesFor(t, b)
  }

  lemma StepGrows(s: Server, step: Step)
    ensures Grows(s, Next(s, step))
  {
    hide AddEndorsement, AddAll;
  }

  lemma {:induction false} HistoryGrows(states: seq<Server>, steps: seq<Step>, j: nat, k: nat)
    requires Run(states, steps) && j <= k < |states|
    ensures Grows(states[j], states[k])
  {
    if j < k {
      hide Next;
      HistoryGrows(states, steps, j, k - 1);
      assert states[k - 1 + 1] == Next(states[k - 1], steps[k - 1]);
      StepGrows(states[k - 1], steps[k - 1]);
    }
  }

  /** Over every run, whatever is received, sealed, failed or forgotten: per block at most one
      commitment ever, and at most one non-empty endorsement followed by at most one empty
      one ever. Every endorsement list is of the form that the quorum count relies on. */
  lemma Discipline(states: seq<Server>, steps: seq<Step>, k: nat)
    requires Run(states, steps) && Start(states[0]) && k < |states|
    ensures CommitsOnce(states[k].commitments)
    ensures forall b: nat :: InTurn(VotesFor(states[k], b))
    ensures TablesInv(states[k].pool) && states[k].pool.chained < states[k].current
  {
    RunInv(states, steps, k);
    forall b: nat ensures InTurn(VotesFor(states[k], b)) { assert VotesStand(states[k], b); }
  }
}
