/** consensus/dbft: the context of one bookkeeper and every handler of its service as
    a step over that context. What a handler learns from the ledger, the clock, the
    transaction pool and the key store comes in as a parameter. */
module Dbft {
  import opened Common
  import opened Bits

  datatype Header = Header(prevHash: Uint256, height: nat, transactions: seq<Bytes>, timestamp: nat, nonce: nat,
                           nextBookkeeper: Bytes)

  /** Does the signature of this bookkeeper verify for this header? */
  type Verify = (nat, Header, Bytes) -> bool

  /** The bits of `ConsensusState`. */
  datatype Flags = Flags(primary: bool, backup: bool, requestSent: bool, requestReceived: bool,
                         signatureSent: bool, blockGenerated: bool)

  const INITIAL := Flags(false, false, false, false, false, false)
  const BACKUP := INITIAL.(backup := true)

  datatype Context = Context(
    state: Flags, prevHash: Uint256, height: nat, viewNumber: nat, bookkeepers: nat, bookkeeperIndex: int,
    primaryIndex: nat, timestamp: nat, nonce: nat, nextBookkeeper: Bytes, transactions: seq<Bytes>,
    signatures: seq<Option<Bytes>>, expectedView: seq<nat>, header: Option<Header>,
    timerHeight: nat, timeView: nat)

  /** What the ledger says when the context is reset: the last block, how many
      bookkeepers the next one has, and which of them this node is (-1: none). */
  datatype Ledger = Ledger(prevHash: Uint256, height: nat, bookkeepers: nat, bookkeeperIndex: int)

  predicate LedgerOk(l: Ledger)
  {
    l.bookkeepers > 0 && -1 <= l.bookkeeperIndex < l.bookkeepers
  }

  /** Sizes and ranges that every handler relies on. */
  predicate Wf(c: Context)
  {
    && c.bookkeepers > 0 && -1 <= c.bookkeeperIndex < c.bookkeepers
    && |c.expectedView| == |c.signatures| == c.bookkeepers
    && c.viewNumber < 256
    && (forall i :: 0 <= i < |c.expectedView| ==> c.expectedView[i] < 256)
    && (c.state.primary || c.state.backup ==> c.bookkeeperIndex >= 0)
  }

  /** The quorum of `n` bookkeepers. */
  function M(n: nat): (m: nat)
    requires n > 0
    ensures 2 * m > n && m + (n - 1) / 3 == n
    ensures n >= 2 ==> 2 * m > n + 1
  {
    n - (n - 1) / 3
  }

  function HeaderOf(c: Context): Header
  {
    Header(c.prevHash, c.height, c.transactions, c.timestamp, c.nonce, c.nextBookkeeper)
  }

  /** `MakeHeader`: builds the header only when none is cached. */
  function MakeHeader(c: Context): (r: Context)
    ensures r.header.Some? && r == c.(header := r.header)
    ensures c.header.Some? ==> r == c
  {
    if c.header.None? then c.(header := Some(HeaderOf(c))) else c
  }

  function ChangeView(c: Context, view: nat): Context
    requires c.bookkeepers > 0
  {
    var c1 := c.(state := INITIAL.(signatureSent := c.state.signatureSent), viewNumber := view,
                 primaryIndex := U32(c.height - view) % c.bookkeepers);
    if c1.state == INITIAL then c1.(transactions := [], signatures := seq(c.bookkeepers, _ => None), header := None)
    else c1
  }

  function Reset(c: Context, l: Ledger): Context
    requires LedgerOk(l)
  {
    c.(state := INITIAL, prevHash := l.prevHash, height := U32(l.height + 1), viewNumber := 0,
       bookkeepers := l.bookkeepers, bookkeeperIndex := l.bookkeeperIndex,
       primaryIndex := U32(l.height + 1) % l.bookkeepers, transactions := [], header := None,
       signatures := seq(l.bookkeepers, _ => None), expectedView := seq(l.bookkeepers, _ => 0))
  }

  /** The role in the new view. A backup's state is overwritten as a whole. */
  function TakeRole(c: Context, view: nat): Context
  {
    if c.bookkeeperIndex < 0 then c
    else
      c.(state := if c.bookkeeperIndex == c.primaryIndex then c.state.(primary := true) else BACKUP,
         timerHeight := c.height, timeView := view)
  }

  function InitializeConsensus(c: Context, view: nat, l: Ledger): Context
    requires Wf(c) && LedgerOk(l)
  {
    if view == 0 then TakeRole(Reset(c, l), 0)
    else if c.state.blockGenerated then c
    else TakeRole(ChangeView(c, view), view)
  }

  /** The bookkeepers that expect exactly this view. */
  function Expecting(expected: seq<nat>, view: nat): set<nat>
  {
    set i: nat | i < |expected| && expected[i] == view
  }

  function CheckExpectedView(c: Context, view: nat, l: Ledger): Context
    requires Wf(c) && LedgerOk(l)
  {
    if c.state.blockGenerated || c.viewNumber == view || |Expecting(c.expectedView, view)| < M(c.bookkeepers) then c
    else InitializeConsensus(c, view, l)
  }

  function ChangeViewReceived(c: Context, from: nat, newView: nat, l: Ledger): Context
    requires Wf(c) && LedgerOk(l) && from < c.bookkeepers && newView < 256
  {
    if newView <= c.expectedView[from] then c
    else CheckExpectedView(c.(expectedView := c.expectedView[from := newView]), newView, l)
  }

  /** A byte counts up, and wraps from 255 to 0. */
  function NextView(c: Context): nat
    requires Wf(c) && c.bookkeeperIndex >= 0
  {
    var e := c.expectedView[c.bookkeeperIndex];
    (if c.viewNumber > e then c.viewNumber + 1 else e + 1) % 256
  }

  function RequestChangeView(c: Context, l: Ledger): Context
    requires Wf(c) && LedgerOk(l) && c.bookkeeperIndex >= 0
  {
    if c.state.blockGenerated then c
    else
      var v := NextView(c);
      CheckExpectedView(c.(expectedView := c.expectedView[c.bookkeeperIndex := v]), v, l)
  }

  function SignatureCount(signatures: seq<Option<Bytes>>): nat
  {
    if signatures == [] then 0
    else SignatureCount(signatures[..|signatures| - 1]) + (if signatures[|signatures| - 1].Some? then 1 else 0)
  }

  /** With a quorum of signatures the block is built and, unless the ledger has it or
      refuses it, marked as generated. */
  function CheckSignatures(c: Context, submitted: bool): Context
    requires Wf(c)
  {
    if SignatureCount(c.signatures) < M(c.bookkeepers) then c
    else
      var c1 := MakeHeader(c);
      if submitted then c1.(state := c1.state.(blockGenerated := true)) else c1
  }

  function PrepareResponseReceived(c: Context, from: nat, sig: Bytes, submitted: bool, verify: Verify): Context
    requires Wf(c) && from < c.bookkeepers
  {
    if c.state.blockGenerated || c.signatures[from].Some? then c
    else
      var c1 := MakeHeader(c);
      if !verify(from, c1.header.value, sig) then c1
      else CheckSignatures(c1.(signatures := c1.signatures[from := Some(sig)]), submitted)
  }

  datatype IndexedSig = IndexedSig(index: nat, signature: Bytes)

  /** The signature loop, `None` for an index outside the table (a Go panic). */
  function AddSignatures(signatures: seq<Option<Bytes>>, sigs: seq<IndexedSig>, h: Header, verify: Verify)
    : Option<seq<Option<Bytes>>>
    requires |signatures| > 0
    decreases |sigs|
  {
    if sigs == [] then Some(signatures)
    else
      var s := sigs[0];
      if s.index >= |signatures| then None
      else if signatures[s.index].Some? || !verify(s.index, h, s.signature) then
        AddSignatures(signatures, sigs[1..], h, verify)
      else
        var next := signatures[s.index := Some(s.signature)];
        if SignatureCount(next) >= M(|next|) then Some(next) else AddSignatures(next, sigs[1..], h, verify)
  }

  lemma {:induction false} AddedLength(signatures: seq<Option<Bytes>>, sigs: seq<IndexedSig>, h: Header, verify: Verify)
    requires |signatures| > 0
    ensures var r := AddSignatures(signatures, sigs, h, verify); r.Some? ==> |r.value| == |signatures|
    decreases |sigs|
  {
    if sigs != [] {
      var s := sigs[0];
      AddedLength(signatures, sigs[1..], h, verify);
      if s.index < |signatures| {
        AddedLength(signatures[s.index := Some(s.signature)], sigs[1..], h, verify);
      }
    }
  }

  function BlockSignaturesReceived(c: Context, from: nat, sigs: seq<IndexedSig>, submitted: bool, verify: Verify)
    : Option<Context>
    requires Wf(c) && from < c.bookkeepers
  {
    if c.state.blockGenerated || c.signatures[from].Some? then Some(c)
    else
      var c1 := MakeHeader(c);
      match AddSignatures(c1.signatures, sigs, c1.header.value, verify)
      case None => None
      case Some(added) =>
        AddedLength(c1.signatures, sigs, c1.header.value, verify);
        Some(CheckSignatures(c1.(signatures := added), submitted))
  }

  datatype Request = Request(timestamp: nat, nonce: nat, nextBookkeeper: Bytes, transactions: seq<Bytes>,
                             signature: Bytes)

  /** What the rest of the node finds about a request: timestamp in range, transactions
      valid, the address of the next bookkeepers (if it can be computed), and the own
      signature (if signing works). */
  datatype Findings = Findings(timestampOk: bool, transactionsOk: bool, nextBookkeeper: Option<Bytes>,
                               signature: Option<Bytes>)

  /** A context and the header that the step signed, if any. */
  datatype Stepped = Stepped(context: Context, signed: Option<Header>)

  function TakeRequest(c: Context, req: Request): Context
  {
    MakeHeader(c.(state := c.state.(requestReceived := true), timestamp := req.timestamp, nonce := req.nonce,
                  nextBookkeeper := req.nextBookkeeper, transactions := req.transactions, header := None))
  }

  function PrepareRequestReceived(c: Context, from: nat, req: Request, f: Findings, l: Ledger, verify: Verify): Stepped
    requires Wf(c) && LedgerOk(l) && from < c.bookkeepers
  {
    if !c.state.backup || c.state.requestReceived || from != c.primaryIndex || !f.timestampOk then Stepped(c, None)
    else
      var c1 := TakeRequest(c, req);
      var h := c1.header.value;
      if !verify(from, h, req.signature) || (req.transactions != [] && !f.transactionsOk) then
        Stepped(RequestChangeView(c, l), None)
      else if f.nextBookkeeper.None? then Stepped(c, None)
      else if f.nextBookkeeper.value != req.nextBookkeeper then Stepped(RequestChangeView(c, l), None)
      else
        var table := seq(c.bookkeepers, _ => None)[from := Some(req.signature)];
        var c2 := c1.(signatures := table, state := c1.state.(signatureSent := true));
        if f.signature.None? then Stepped(c2, None)
        else Stepped(c2.(signatures := table[c.bookkeeperIndex := f.signature]), Some(h))
  }

  /** What a primary has when its timer fires: no previous header, no address of the
      next bookkeepers, or a complete proposal with its own signature. */
  datatype Proposal =
    | NoHeader
    | NoValidators(timestamp: nat, nonce: nat, transactions: seq<Bytes>, nextAssigned: Option<Bytes>)
    | Proposed(timestamp: nat, nonce: nat, transactions: seq<Bytes>, nextBookkeeper: Bytes, signature: Option<Bytes>)

  function Propose(c: Context, p: Proposal): Stepped
    requires Wf(c) && c.bookkeeperIndex >= 0
  {
    match p
    case NoHeader => Stepped(c, None)
    case NoValidators(timestamp, nonce, transactions, next) =>
      var c1 := c.(timestamp := timestamp, nonce := nonce, transactions := transactions);
      Stepped(if next.Some? then c1.(nextBookkeeper := next.value) else c1, None)
    case Proposed(timestamp, nonce, transactions, next, signature) =>
      var c1 := MakeHeader(c.(timestamp := timestamp, nonce := nonce, transactions := transactions,
                              nextBookkeeper := next, header := None));
      Stepped(c1.(signatures := c1.signatures[c.bookkeeperIndex := signature]),
              if signature.Some? then c1.header else None)
  }

  function Timeout(c: Context, p: Proposal, l: Ledger): Stepped
    requires Wf(c) && LedgerOk(l)
  {
    if c.timerHeight != c.height || c.timeView != c.viewNumber then Stepped(c, None)
    else if c.state.primary && !c.state.requestSent then
      var c1 := c.(state := c.state.(requestSent := true));
      if c.state.signatureSent then Stepped(c1, None) else Propose(c1, p)
    else if c.state.primary || c.state.backup then Stepped(RequestChangeView(c, l), None)
    else Stepped(c, None)
  }

  datatype Message =
    | ChangeViewMsg(newView: nat)
    | PrepareRequestMsg(request: Request, findings: Findings)
    | PrepareResponseMsg(signature: Bytes, submitted: bool)
    | BlockSignaturesMsg(signatures: seq<IndexedSig>, submitted: bool)

  /** A consensus payload; `authentic` says that its own signature verifies. */
  datatype Payload = Payload(from: nat, prevHash: Uint256, height: nat, view: nat, authentic: bool, message: Message)

  predicate PayloadOk(p: Payload)
  {
    p.message.ChangeViewMsg? ==> p.message.newView < 256
  }

  predicate Relevant(c: Context, p: Payload)
  {
    && p.from != c.bookkeeperIndex && p.prevHash == c.prevHash && p.height == c.height
    && !c.state.blockGenerated && p.from < c.bookkeepers
    && (p.view == c.viewNumber || p.message.ChangeViewMsg?) && p.authentic
  }

  /** `NewConsensusPayload`. */
  function Deliver(c: Context, p: Payload, l: Ledger, verify: Verify): Option<Stepped>
    requires Wf(c) && LedgerOk(l) && PayloadOk(p)
  {
    if !Relevant(c, p) then Some(Stepped(c, None))
    else
      match p.message
      case ChangeViewMsg(v) => Some(Stepped(ChangeViewReceived(c, p.from, v, l), None))
      case PrepareRequestMsg(req, f) => Some(PrepareRequestReceived(c, p.from, req, f, l, verify))
      case PrepareResponseMsg(sig, submitted) =>
        Some(Stepped(PrepareResponseReceived(c, p.from, sig, submitted, verify), None))
      case BlockSignaturesMsg(sigs, submitted) =>
        match BlockSignaturesReceived(c, p.from, sigs, submitted, verify)
        case None => None
        case Some(c1) => Some(Stepped(c1, None))
  }

  datatype Event =
    | Persisted
    | TimedOut(proposal: Proposal)
    | Received(payload: Payload)

  /** One atomic step of a bookkeeper; `None` when the handler panics. */
  function Step(c: Context, e: Event, l: Ledger, verify: Verify): Option<Stepped>
    requires Wf(c) && LedgerOk(l) && (e.Received? ==> PayloadOk(e.payload))
  {
    match e
    case Persisted => Some(Stepped(InitializeConsensus(c, 0, l), None))
    case TimedOut(p) => Some(Timeout(c, p, l))
    case Received(p) => Deliver(c, p, l, verify)
  }
}
