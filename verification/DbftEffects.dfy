/** What the handlers of consensus/dbft do, field by field: which header is signed and when,
    when a view changes, which signatures are stored, and when a block is generated. */
module DbftEffects {
  import opened Common
  import opened Bits
  import opened Dbft
  import opened DbftSafety

  // ---------- signing ----------

  /** The header that a primary proposes. */
  function ProposedHeader(c: Context, p: Proposal): Header
    requires p.Proposed?
  {
    Header(c.prevHash, c.height, p.transactions, p.timestamp, p.nonce, p.nextBookkeeper)
  }

  /** The header that a request is about. */
  function RequestedHeader(c: Context, r: Request): Header
  {
    Header(c.prevHash, c.height, r.transactions, r.timestamp, r.nonce, r.nextBookkeeper)
  }

  /** A primary proposes when its timer fires for the first time in the view. */
  predicate Proposes(c: Context, p: Proposal)
  {
    && c.timerHeight == c.height && c.timeView == c.viewNumber
    && c.state.primary && !c.state.requestSent && !c.state.signatureSent
    && p.Proposed? && p.signature.Some?
  }

  /** A backup takes the first request of the primary that is in order. */
  predicate Takes(c: Context, from: nat, r: Request, f: Findings, verify: Verify)
  {
    && c.state.backup && !c.state.requestReceived && from == c.primaryIndex && f.timestampOk
    && verify(from, RequestedHeader(c, r), r.signature) && (r.transactions != [] ==> f.transactionsOk)
    && f.nextBookkeeper == Some(r.nextBookkeeper)
  }

  predicate SignsRequest(c: Context, p: Payload, verify: Verify)
  {
    && Relevant(c, p) && p.message.PrepareRequestMsg? && p.message.findings.signature.Some?
    && Takes(c, p.from, p.message.request, p.message.findings, verify)
  }

  /** Exactly which events make a bookkeeper sign, and which header. */
  function Signed(c: Context, e: Event, verify: Verify): Option<Header>
  {
    match e
    case Persisted => None
    case TimedOut(p) => if Proposes(c, p) then Some(ProposedHeader(c, p)) else None
    case Received(p) => if SignsRequest(c, p, verify) then Some(RequestedHeader(c, p.message.request)) else None
  }

  lemma SignsExact(c: Context, e: Event, l: Ledger, verify: Verify)
    requires Wf(c) && LedgerOk(l) && (e.Received? ==> PayloadOk(e.payload))
    ensures var r := Step(c, e, l, verify); r.Some? ==> r.value.signed == Signed(c, e, verify)
    ensures e.Received? && !e.payload.message.BlockSignaturesMsg? ==> Step(c, e, l, verify).Some?
  {
    hide RequestChangeView, ChangeViewReceived, PrepareResponseReceived, BlockSignaturesReceived, InitializeConsensus;
  }

  /** What a primary that proposes holds afterwards: its proposal, and its own signature. */
  lemma ProposalStands(c: Context, p: Proposal, l: Ledger)
    requires Wf(c) && LedgerOk(l) && Proposes(c, p)
    ensures var d := Timeout(c, p, l).context;
      && d.header == Some(ProposedHeader(c, p)) && d.signatures == c.signatures[c.bookkeeperIndex := p.signature]
      && d.state == c.state.(requestSent := true)
      && d == c.(header := d.header, signatures := d.signatures, state := d.state, timestamp := p.timestamp,
                 nonce := p.nonce, transactions := p.transactions, nextBookkeeper := p.nextBookkeeper)
  {
  }

  /** What a backup that takes a request holds afterwards: the requested header, and in the table
      the signature of the primary and its own alone. */
  lemma RequestStands(c: Context, from: nat, r: Request, f: Findings, l: Ledger, verify: Verify)
    requires Wf(c) && LedgerOk(l) && from < c.bookkeepers && Takes(c, from, r, f, verify)
    ensures var d := PrepareRequestReceived(c, from, r, f, l, verify).context;
      && d.header == Some(RequestedHeader(c, r)) && |d.signatures| == c.bookkeepers
      && (forall i :: 0 <= i < |d.signatures| ==>
            d.signatures[i] == (if i == c.bookkeeperIndex && f.signature.Some? then f.signature
                                else if i == from then Some(r.signature) else None))
      && d.state == c.state.(requestReceived := true, signatureSent := true)
      && d == c.(header := d.header, signatures := d.signatures, state := d.state, timestamp := r.timestamp,
                 nonce := r.nonce, transactions := r.transactions, nextBookkeeper := r.nextBookkeeper)
  {
  }

  /** A request that is not taken changes nothing, or makes the backup ask for the next view. */
  lemma RequestRefused(c: Context, from: nat, r: Request, f: Findings, l: Ledger, verify: Verify)
    requires Wf(c) && LedgerOk(l) && from < c.bookkeepers && !Takes(c, from, r, f, verify)
    ensures var asks :=
        && c.state.backup && !c.state.requestReceived && from == c.primaryIndex && f.timestampOk
        && (|| !verify(from, RequestedHeader(c, r), r.signature) || (r.transactions != [] && !f.transactionsOk)
            || f.nextBookkeeper.Some?);
      PrepareRequestReceived(c, from, r, f, l, verify) == Stepped(if asks then RequestChangeView(c, l) else c, None)
  {
    hide RequestChangeView;
  }

  lemma StepSigns(a: Node, b: Node, e: Event, l: Ledger, verify: Verify)
    requires NodeStep(a, b, e, l, verify)
    ensures forall r :: r in b.history && r !in a.history ==>
      r.height == a.context.height && r.view == a.context.viewNumber && Some(r.header) == Signed(a.context, e, verify)
  {
    hide Signed, Step;
    SignsExact(a.context, e, l, verify);
  }

  /** A timer of another height or view is ignored; in time, a primary that has not sent its request
      sends it, and everyone else asks for the next view. */
  lemma TimeoutTells(c: Context, p: Proposal, l: Ledger)
    requires Wf(c) && LedgerOk(l)
    ensures var r := Timeout(c, p, l);
      var sent := c.(state := c.state.(requestSent := true));
      if c.timerHeight != c.height || c.timeView != c.viewNumber || !(c.state.primary || c.state.backup) then
        r == Stepped(c, None)
      else if !c.state.primary || c.state.requestSent then r == Stepped(RequestChangeView(c, l), None)
      else if c.state.signatureSent || p.NoHeader? then r == Stepped(sent, None)
      else
        && r.context.state == sent.state && r.context.timestamp == p.timestamp && r.context.nonce == p.nonce
        && r.context.transactions == p.transactions
        && (p.Proposed? ==>
              r.context.header == Some(ProposedHeader(c, p)) && r.context.nextBookkeeper == p.nextBookkeeper)
        && (p.NoValidators? ==>
              r == Stepped(sent.(timestamp := p.timestamp, nonce := p.nonce, transactions := p.transactions,
                                 nextBookkeeper := if p.nextAssigned.Some? then p.nextAssigned.value
                                                   else c.nextBookkeeper), None))
  {
    hide RequestChangeView;
  }

  /** What is not for this height, this view and this node, or not authentic, is ignored. */
  lemma ForeignIgnored(c: Context, p: Payload, l: Ledger, verify: Verify)
    requires Wf(c) && LedgerOk(l) && PayloadOk(p)
    requires || p.from == c.bookkeeperIndex || p.from >= c.bookkeepers
             || p.height != c.height || p.prevHash != c.prevHash
             || (p.view != c.viewNumber && !p.message.ChangeViewMsg?) || !p.authentic || c.state.blockGenerated
    ensures Step(c, Received(p), l, verify) == Some(Stepped(c, None))
  {
  }

  /** Anything else is handled as what it is. */
  lemma OwnHandled(c: Context, p: Payload, l: Ledger, verify: Verify)
    requires Wf(c) && LedgerOk(l) && PayloadOk(p)
    requires p.from != c.bookkeeperIndex && p.from < c.bookkeepers && p.height == c.height && p.prevHash == c.prevHash
    requires (p.view == c.viewNumber || p.message.ChangeViewMsg?) && p.authentic && !c.state.blockGenerated
    ensures var r := Step(c, Received(p), l, verify);
      match p.message
      case ChangeViewMsg(v) => r == Some(Stepped(ChangeViewReceived(c, p.from, v, l), None))
      case PrepareRequestMsg(req, f) => r == Some(PrepareRequestReceived(c, p.from, req, f, l, verify))
      case PrepareResponseMsg(sig, submitted) =>
        r == Some(Stepped(PrepareResponseReceived(c, p.from, sig, submitted, verify), None))
      case BlockSignaturesMsg(sigs, submitted) =>
        var d := BlockSignaturesReceived(c, p.from, sigs, submitted, verify);
        r == if d.Some? then Some(Stepped(d.value, None)) else None
  {
    hide ChangeViewReceived, PrepareRequestReceived, PrepareResponseReceived, BlockSignaturesReceived;
  }

  /** The record is what node `id` signed in act `j`. */
  ghost predicate Origin(run: seq<Net>, acts: seq<Act>, verify: map<nat, Verify>, id: nat, r: Record, j: nat)
  {
    && j < |run| && j < |acts| && acts[j].id == id && id in run[j] && id in verify
    && var c := run[j][id].context;
       r.height == c.height && r.view == c.viewNumber && Some(r.header) == Signed(c, acts[j].event, verify[id])
  }

  /** Every header that a bookkeeper ever signed was proposed by itself or asked for by the primary
      of that view, at that height, with these transactions, time and next bookkeepers. */
  lemma {:induction false} HistoryOrigin(run: seq<Net>, acts: seq<Act>, verify: map<nat, Verify>, k: nat, id: nat,
                                         r: Record)
    returns (j: nat)
    requires NetRun(run, acts, verify) && k < |run| && id in run[k] && r in run[k][id].history
    ensures j < k && Origin(run, acts, verify, id, r, j)
  {
    hide Signed, NodeStep;
    assert k > 0;
    hide Start;
    var n, n', a := run[k - 1], run[k - 1 + 1], acts[k - 1];
    assert NetStep(n, n', a, verify);
    if r in n[id].history {
      j := HistoryOrigin(run, acts, verify, k - 1, id, r);
    } else {
      StepSigns(n[id], n'[id], a.event, a.ledger, verify[id]);
      j := k - 1;
    }
  }

  // ---------- changing views ----------

  /** The role in a view, with a running timer for it. */
  predicate InRole(c: Context)
  {
    && c.state.primary == (0 <= c.bookkeeperIndex == c.primaryIndex)
    && c.state.backup == (0 <= c.bookkeeperIndex != c.primaryIndex)
    && !c.state.requestSent && !c.state.requestReceived && !c.state.blockGenerated
    && (0 <= c.bookkeeperIndex ==> c.timerHeight == c.height && c.timeView == c.viewNumber)
  }

  /** A table without signatures. */
  predicate NoSignatures(c: Context)
  {
    |c.signatures| == c.bookkeepers && forall i :: 0 <= i < |c.signatures| ==> c.signatures[i].None?
  }

  /** The node goes to another view of its height. It starts it with nothing, unless it has sent
      its signature in this height: then it keeps transactions, header and signatures. */
  ghost predicate Enters(c: Context, d: Context, view: nat)
  {
    && d.viewNumber == view && InRole(d)
    && d.bookkeepers > 0 && IsPrimary(d.primaryIndex, d.height, view, d.bookkeepers)
    && d.height == c.height && d.prevHash == c.prevHash && d.bookkeepers == c.bookkeepers
    && d.bookkeeperIndex == c.bookkeeperIndex && d.expectedView == c.expectedView
    && (d.state.signatureSent <==> c.state.signatureSent && !d.state.backup)
    && (if c.state.signatureSent then
          d.transactions == c.transactions && d.header == c.header && d.signatures == c.signatures
        else d.transactions == [] && d.header == None && NoSignatures(d))
  }

  /** The node starts the height after the last block of the ledger. */
  predicate Opens(d: Context, l: Ledger)
  {
    && d.height == U32(l.height + 1) && d.prevHash == l.prevHash && d.viewNumber == 0 && InRole(d)
    && d.bookkeepers == l.bookkeepers > 0 && d.bookkeeperIndex == l.bookkeeperIndex
    && d.primaryIndex == d.height % d.bookkeepers && !d.state.signatureSent
    && d.transactions == [] && d.header == None && NoSignatures(d)
    && |d.expectedView| == d.bookkeepers && forall i :: 0 <= i < |d.expectedView| ==> d.expectedView[i] == 0
  }

  /** A new view is entered, and view 0 is a new height. */
  ghost predicate Initialized(c: Context, d: Context, view: nat, l: Ledger)
  {
    if view == 0 then Opens(d, l) else if c.state.blockGenerated then d == c else Enters(c, d, view)
  }

  lemma InitializeTells(c: Context, view: nat, l: Ledger)
    requires Wf(c) && LedgerOk(l) && c.height < U32_SIZE && view < 256
    ensures Initialized(c, InitializeConsensus(c, view, l), view, l)
  {
    hide IsPrimary;
    ViewPrimary(c.height, view, c.bookkeepers);
  }

  /** A view is left exactly for another one that a quorum expects. */
  predicate Leaves(c: Context, view: nat)
    requires c.bookkeepers > 0
  {
    !c.state.blockGenerated && c.viewNumber != view && |Expecting(c.expectedView, view)| >= M(c.bookkeepers)
  }

  lemma ViewTells(c: Context, view: nat, l: Ledger)
    requires Wf(c) && LedgerOk(l) && c.height < U32_SIZE && view < 256
    ensures var d := CheckExpectedView(c, view, l);
      if !Leaves(c, view) then d == c else if view == 0 then Opens(d, l) else Enters(c, d, view)
  {
    hide Opens, Enters, InitializeConsensus;
    InitializeTells(c, view, l);
  }

  /** A message moves the entry of its sender up, and nothing else but the view. */
  lemma ChangeViewTells(c: Context, from: nat, view: nat, l: Ledger)
    requires Wf(c) && LedgerOk(l) && c.height < U32_SIZE && from < c.bookkeepers && view < 256
    ensures var told := c.(expectedView := c.expectedView[from := if view > c.expectedView[from] then view
                                                                  else c.expectedView[from]]);
      var d := ChangeViewReceived(c, from, view, l);
      if view > c.expectedView[from] && Leaves(told, view) then Enters(told, d, view) else d == told
  {
    hide Enters, Opens, CheckExpectedView;
    if view > c.expectedView[from] {
      ViewTells(c.(expectedView := c.expectedView[from := view]), view, l);
    } else {
      assert c.expectedView[from := c.expectedView[from]] == c.expectedView;
    }
  }

  /** Asking for the next view raises the own entry above both it and the view, as a byte. */
  lemma RequestTells(c: Context, l: Ledger)
    requires Wf(c) && LedgerOk(l) && c.height < U32_SIZE && c.bookkeeperIndex >= 0
    ensures var e := c.expectedView[c.bookkeeperIndex];
      var more := if e > c.viewNumber then e + 1 else c.viewNumber + 1;
      var next := if more == 256 then 0 else more;
      var asked := c.(expectedView := c.expectedView[c.bookkeeperIndex := next]);
      var d := RequestChangeView(c, l);
      if c.state.blockGenerated then d == c
      else if !Leaves(asked, next) then d == asked
      else if next == 0 then Opens(d, l) else Enters(asked, d, next)
  {
    hide Enters, Opens, CheckExpectedView;
    if !c.state.blockGenerated {
      var v := NextView(c);
      ViewTells(c.(expectedView := c.expectedView[c.bookkeeperIndex := v]), v, l);
    }
  }

  // ---------- signatures and the block ----------

  /** Whose signatures are stored. */
  function Stored(signatures: seq<Option<Bytes>>): set<nat>
  {
    set i: nat | i < |signatures| && signatures[i].Some?
  }

  lemma {:induction false} CountStored(signatures: seq<Option<Bytes>>)
    ensures SignatureCount(signatures) == |Stored(signatures)|
  {
    if signatures != [] {
      var n := |signatures| - 1;
      CountStored(signatures[..n]);
      var rest := Stored(signatures[..n]);
      if signatures[n].Some? {
        assert Stored(signatures) == rest + {n};
      } else {
        assert Stored(signatures) == rest;
      }
    }
  }

  /** The cached header, or the one of the fields. */
  function CurrentHeader(c: Context): Header
  {
    if c.header.Some? then c.header.value
    else Header(c.prevHash, c.height, c.transactions, c.timestamp, c.nonce, c.nextBookkeeper)
  }

  /** A block is generated with a quorum of signatures that the ledger takes. */
  lemma CheckTells(c: Context, submitted: bool)
    requires Wf(c)
    ensures var d := CheckSignatures(c, submitted);
      if |Stored(c.signatures)| >= M(c.bookkeepers) then
        d == c.(header := Some(CurrentHeader(c)),
                state := c.state.(blockGenerated := c.state.blockGenerated || submitted))
      else d == c
  {
    CountStored(c.signatures);
  }

  /** A response is stored exactly if it is the first of its sender and verifies. */
  lemma ResponseTells(c: Context, from: nat, sig: Bytes, submitted: bool, verify: Verify)
    requires Wf(c) && from < c.bookkeepers
    ensures var h := CurrentHeader(c);
      var d := PrepareResponseReceived(c, from, sig, submitted, verify);
      var kept := c.(header := Some(h));
      var stored := kept.(signatures := c.signatures[from := Some(sig)]);
      if c.state.blockGenerated || c.signatures[from].Some? then d == c
      else if !verify(from, h, sig) then d == kept
      else if |Stored(stored.signatures)| < M(c.bookkeepers) || !submitted then d == stored
      else d == stored.(state := c.state.(blockGenerated := true))
  {
    var c1 := MakeHeader(c);
    CheckTells(c1.(signatures := c1.signatures[from := Some(sig)]), submitted);
    hide CheckSignatures;
  }

  /** A signature of the list is for this entry and verifies. */
  predicate Offers(sigs: seq<IndexedSig>, i: nat, sig: Bytes, h: Header, verify: Verify)
  {
    IndexedSig(i, sig) in sigs && verify(i, h, sig)
  }

  /** Offered signatures fill empty entries: nothing is lost, nothing else comes in, and unless a
      quorum is reached everything that verifies has its entry filled. */
  lemma {:induction false} AddedTells(signatures: seq<Option<Bytes>>, sigs: seq<IndexedSig>, h: Header, verify: Verify)
    requires |signatures| > 0
    ensures var r := AddSignatures(signatures, sigs, h, verify);
      && (r.None? ==> exists k :: 0 <= k < |sigs| && sigs[k].index >= |signatures|)
      && (r.Some? ==>
            && |r.value| == |signatures|
            && (forall i :: 0 <= i < |signatures| && signatures[i].Some? ==> r.value[i] == signatures[i])
            && (forall i :: 0 <= i < |signatures| && signatures[i].None? && r.value[i].Some? ==>
                  Offers(sigs, i, r.value[i].value, h, verify))
            && (SignatureCount(r.value) >= M(|signatures|) ||
                forall k :: 0 <= k < |sigs| ==>
                  sigs[k].index < |signatures| &&
                  (verify(sigs[k].index, h, sigs[k].signature) ==> r.value[sigs[k].index].Some?)))
    decreases |sigs|
  {
    if sigs != [] {
      var s, rest := sigs[0], sigs[1..];
      assert forall x :: x in rest ==> x in sigs;
      if s.index < |signatures| {
        hide SignatureCount, M;
        if signatures[s.index].Some? || !verify(s.index, h, s.signature) {
          AddedTells(signatures, rest, h, verify);
        } else {
          assert s == IndexedSig(s.index, s.signature) && s in sigs;
          AddedTells(signatures[s.index := Some(s.signature)], rest, h, verify);
        }
      }
    }
  }

  lemma CountOneMore(signatures: seq<Option<Bytes>>, i: nat, sig: Bytes)
    requires i < |signatures| && signatures[i].None?
    ensures SignatureCount(signatures[i := Some(sig)]) == SignatureCount(signatures) + 1
  {
    hide SignatureCount;
    CountStored(signatures);
    CountStored(signatures[i := Some(sig)]);
    assert Stored(signatures[i := Some(sig)]) == Stored(signatures) + {i};
  }

  /** Once there is a quorum nothing more is taken. */
  lemma {:induction false} AddedStops(signatures: seq<Option<Bytes>>, sigs: seq<IndexedSig>, h: Header, verify: Verify)
    requires |signatures| > 0 && SignatureCount(signatures) < M(|signatures|)
    ensures var r := AddSignatures(signatures, sigs, h, verify);
      r.Some? ==> SignatureCount(r.value) <= M(|signatures|)
    decreases |sigs|
  {
    if sigs != [] {
      var s, rest := sigs[0], sigs[1..];
      if s.index < |signatures| {
        hide SignatureCount, M;
        if signatures[s.index].Some? || !verify(s.index, h, s.signature) {
          AddedStops(signatures, rest, h, verify);
        } else {
          var next := signatures[s.index := Some(s.signature)];
          CountOneMore(signatures, s.index, s.signature);
          if SignatureCount(next) < M(|next|) { AddedStops(next, rest, h, verify); }
        }
      }
    }
  }

  /** A list of signatures fills the table and generates the block at a quorum; a node that has
      the block or the sender's signature does not look at it. */
  lemma BlockSignaturesTell(c: Context, from: nat, sigs: seq<IndexedSig>, submitted: bool, verify: Verify)
    requires Wf(c) && from < c.bookkeepers
    ensures var h := CurrentHeader(c);
      var r := BlockSignaturesReceived(c, from, sigs, submitted, verify);
      if c.state.blockGenerated || c.signatures[from].Some? then r == Some(c)
      else
        var added := AddSignatures(c.signatures, sigs, h, verify);
        && r.Some? == added.Some?
        && (r.Some? ==>
              r.value == c.(header := Some(h), signatures := added.value, state := c.state.(blockGenerated :=
                              submitted && |Stored(added.value)| >= M(c.bookkeepers))))
  {
    var c1 := MakeHeader(c);
    AddedLength(c1.signatures, sigs, c1.header.value, verify);
    var added := AddSignatures(c1.signatures, sigs, c1.header.value, verify);
    if added.Some? { CheckTells(c1.(signatures := added.value), submitted); }
    hide CheckSignatures, AddSignatures;
  }

  /** Whose stored signatures verify for the cached header. */
  ghost predicate Verified(c: Context, verify: Verify, signers: set<nat>)
  {
    && c.header.Some?
    && forall i :: i in signers ==>
         i < |c.signatures| && c.signatures[i].Some? && verify(i, c.header.value, c.signatures[i].value)
  }

  /** In every run: a backup that has generated a block holds a quorum of signatures that verify
      for its header. */
  lemma BlockIsSigned(run: seq<Net>, acts: seq<Act>, verify: map<nat, Verify>, k: nat, id: nat)
    requires NetRun(run, acts, verify) && k < |run| && id in run[k] && id in verify
    requires var s := run[k][id].context.state; s.requestReceived && s.blockGenerated
    ensures var c := run[k][id].context;
      c.bookkeepers > 0 && |Stored(c.signatures)| >= M(c.bookkeepers) && Verified(c, verify[id], Stored(c.signatures))
  {
    hide NetStep, Start, ViewInv, RoleInv, IsPrimary;
    RunContexts(run, acts, verify, k);
    CountStored(run[k][id].context.signatures);
  }
}
