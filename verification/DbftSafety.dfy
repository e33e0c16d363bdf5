/** What every run of dBFT bookkeepers keeps: views only go up within a height, a
    correct bookkeeper signs at most one header per height and view, and therefore at
    most one header per height and view finds a quorum of signers. */
module DbftSafety {
  import opened Common
  import opened Bits
  import opened Dbft
  import Modulo
  import opened Sets

  // ---------- views only go up ----------

  /** The other bookkeepers that expect the current view or a later one. */
  function Ahead(expected: seq<nat>, view: nat, me: int): set<nat>
  {
    set i: nat | i < |expected| && i != me && expected[i] >= view
  }

  function Others(n: nat, me: int): set<nat>
  {
    Range(n) - (if me >= 0 then {me as nat} else {})
  }

  /** How many of a quorum are others. */
  function Needed(c: Context): int
    requires c.bookkeepers > 0
  {
    if c.bookkeeperIndex >= 0 then M(c.bookkeepers) - 1 else M(c.bookkeepers)
  }

  ghost predicate ViewInv(c: Context)
    requires c.bookkeepers > 0
  {
    |Ahead(c.expectedView, c.viewNumber, c.bookkeeperIndex)| >= Needed(c)
  }

  lemma OthersSize(n: nat, me: int)
    requires -1 <= me < n
    ensures |Others(n, me)| == if me >= 0 then n - 1 else n
  {
  }

  /** A single bookkeeper is a quorum by itself. */
  predicate Alone(c: Context)
  {
    c.bookkeepers == 1 && c.bookkeeperIndex == 0
  }

  /** A quorum for another view is a quorum for a later view: it shares an entry with
      the others that already expect the current view, whatever the own entry is. */
  lemma QuorumIsLater(c: Context, view: nat)
    requires Wf(c) && !Alone(c) && ViewInv(c)
    requires view != c.viewNumber && |Expecting(c.expectedView, view)| >= M(c.bookkeepers)
    ensures view > c.viewNumber
    ensures |Ahead(c.expectedView, view, c.bookkeeperIndex)| >= Needed(c)
  {
    var me, e, n := c.bookkeeperIndex, c.expectedView, c.bookkeepers;
    var now, next := Ahead(e, c.viewNumber, me), Expecting(e, view);
    var rest := next - (if me >= 0 then {me as nat} else {});
    assert |rest| >= Needed(c);
    OthersSize(n, me);
    Overlap(now, rest, Others(n, me));
    var i :| i in now * rest;
    SubsetSize(rest, Ahead(e, view, me));
  }

  lemma AheadGrows(e: seq<nat>, i: nat, x: nat, view: nat, me: int)
    requires i < |e| && (i == me || e[i] <= x)
    ensures |Ahead(e, view, me)| <= |Ahead(e[i := x], view, me)|
  {
    SubsetSize(Ahead(e, view, me), Ahead(e[i := x], view, me));
  }

  lemma AllAhead(n: nat, me: int)
    requires n > 0 && -1 <= me < n
    ensures |Ahead(seq(n, _ => 0), 0, me)| == if me >= 0 then n - 1 else n
  {
    OthersSize(n, me);
    assert Ahead(seq(n, _ => 0), 0, me) == Others(n, me);
  }

  // ---------- the primary rotates ----------

  /** The primary of a view: view 0 starts at the height, and every view goes one back. Below
      view 0 of height 0 the subtraction wraps. */
  predicate IsPrimary(p: nat, height: nat, view: nat, n: nat)
    requires n > 0
  {
    && p < n && height < U32_SIZE && view < 256
    && (p + view) % n == (if view <= height then height else height + U32_SIZE) % n
  }

  lemma ViewPrimary(height: nat, view: nat, n: nat)
    requires n > 0 && height < U32_SIZE && view < 256
    ensures IsPrimary(U32(height - view) % n, height, view, n)
  {
    var x := if view <= height then height - view else height - view + U32_SIZE;
    if view > height { Modulo.DivUnique(height - view, -1, x, U32_SIZE); }
    assert U32(height - view) == x;
    Modulo.ModAdd(x, view, n);
  }

  /** How far apart two views are, as the subtraction from the height counts: a wrap between
      them counts as well. */
  function ViewsApart(height: nat, v: nat, w: nat): int
  {
    w - v - (if v <= height < w then U32_SIZE else if w <= height < v then 0 - U32_SIZE else 0)
  }

  /** The primaries of two views of a height are the same exactly when the views are a multiple
      of the number of bookkeepers apart. */
  lemma SamePrimary(p: nat, q: nat, height: nat, v: nat, w: nat, n: nat)
    requires n > 0 && IsPrimary(p, height, v, n) && IsPrimary(q, height, w, n)
    ensures p == q <==> ViewsApart(height, v, w) % n == 0
  {
    var a := if v <= height then height else height + U32_SIZE;
    var b := if w <= height then height else height + U32_SIZE;
    assert (a - v) - (b - w) == ViewsApart(height, v, w);
    Modulo.Shifted(p, v, a, q, w, b, n);
  }

  // ---------- roles and signatures ----------

  ghost predicate RoleInv(c: Context)
  {
    && (c.state.primary ==> c.bookkeeperIndex == c.primaryIndex)
    && (c.state.backup ==> c.bookkeeperIndex != c.primaryIndex)
    && (c.state.requestReceived ==> c.state.backup)
    && (c.state.requestSent ==> c.state.primary)
  }

  /** Every stored signature verifies against this header. */
  ghost predicate AllVerify(signatures: seq<Option<Bytes>>, h: Header, verify: Verify)
  {
    forall i :: 0 <= i < |signatures| && signatures[i].Some? ==> verify(i, h, signatures[i].value)
  }

  /** While a request is accepted, the whole table is about the cached header, and a block is
      generated only with a quorum in it. */
  ghost predicate SigInv(c: Context, verify: Verify)
    requires c.bookkeepers > 0
  {
    c.state.requestReceived ==>
      && c.header.Some? && AllVerify(c.signatures, c.header.value, verify)
      && (c.state.blockGenerated ==> SignatureCount(c.signatures) >= M(c.bookkeepers))
  }

  ghost predicate CtxInv(c: Context, verify: Verify)
  {
    && Wf(c) && ViewInv(c) && RoleInv(c) && SigInv(c, verify)
    && IsPrimary(c.primaryIndex, c.height, c.viewNumber, c.bookkeepers)
  }

  /** The bookkeeper has signed, or will not sign again, in this view. */
  predicate Busy(c: Context)
  {
    c.state.requestSent || c.state.requestReceived
  }

  /** How a step may move: to a later height; to a later view of the same height; or,
      in the same view, by signing once and staying busy from then on. */
  ghost predicate Moves(c: Context, s: Stepped)
  {
    var d := s.context;
    && (d.height > c.height
        || (d.height == c.height && d.viewNumber > c.viewNumber)
        || (d.height == c.height && d.viewNumber == c.viewNumber && (Busy(c) ==> Busy(d))))
    && (s.signed.Some? ==>
        d.height == c.height && d.viewNumber == c.viewNumber && !Busy(c) && Busy(d))
  }

  ghost predicate Good(c: Context, s: Stepped, verify: Verify)
  {
    CtxInv(s.context, verify) && Moves(c, s)
  }

  lemma CheckExpectedViewGood(c: Context, view: nat, l: Ledger, verify: Verify)
    requires CtxInv(c, verify) && LedgerOk(l) && view < 256 && !Alone(c)
    ensures Good(c, Stepped(CheckExpectedView(c, view, l), None), verify)
  {
    if !c.state.blockGenerated && c.viewNumber != view && |Expecting(c.expectedView, view)| >= M(c.bookkeepers) {
      assert c.height < U32_SIZE;
      hide IsPrimary;
      QuorumIsLater(c, view);
      ViewPrimary(c.height, view, c.bookkeepers);
      var d := InitializeConsensus(c, view, l);
      assert d.expectedView == c.expectedView && d.bookkeeperIndex == c.bookkeeperIndex;
      assert Wf(d);
    }
  }

  lemma ChangeViewReceivedGood(c: Context, from: nat, newView: nat, l: Ledger, verify: Verify)
    requires CtxInv(c, verify) && LedgerOk(l) && from < c.bookkeepers && from != c.bookkeeperIndex && newView < 256
    ensures Good(c, Stepped(ChangeViewReceived(c, from, newView, l), None), verify)
  {
    if newView > c.expectedView[from] {
      var d := c.(expectedView := c.expectedView[from := newView]);
      AheadGrows(c.expectedView, from, newView, c.viewNumber, c.bookkeeperIndex);
      CheckExpectedViewGood(d, newView, l, verify);
    }
  }

  /** The view byte of a single bookkeeper wraps. */
  predicate FallsBack(c: Context)
  {
    && Wf(c) && Alone(c) && !c.state.blockGenerated
    && c.viewNumber > 0 && (c.expectedView[0] == 255 || c.viewNumber == 255)
  }

  /** A single bookkeeper goes to the view that it asks for. */
  lemma AloneMoves(c: Context, l: Ledger)
    requires Wf(c) && LedgerOk(l) && Alone(c) && !c.state.blockGenerated
    ensures var v := NextView(c);
      var d := c.(expectedView := c.expectedView[0 := v]);
      && RequestChangeView(c, l) == (if v == c.viewNumber then d else InitializeConsensus(d, v, l))
      && (FallsBack(c) <==> v < c.viewNumber) && (v < c.viewNumber ==> v == 0)
  {
    var v := NextView(c);
    assert Expecting(c.expectedView[0 := v], v) == {0 as nat};
  }

  lemma AloneGood(c: Context, l: Ledger, verify: Verify)
    requires CtxInv(c, verify) && LedgerOk(l) && Alone(c) && !FallsBack(c)
    ensures Good(c, Stepped(RequestChangeView(c, l), None), verify)
  {
    if !c.state.blockGenerated {
      hide RequestChangeView;
      AloneMoves(c, l);
    }
  }

  lemma RequestChangeViewGood(c: Context, l: Ledger, verify: Verify)
    requires CtxInv(c, verify) && LedgerOk(l) && c.bookkeeperIndex >= 0 && !FallsBack(c)
    ensures Good(c, Stepped(RequestChangeView(c, l), None), verify)
  {
    if Alone(c) {
      AloneGood(c, l, verify);
    } else if !c.state.blockGenerated {
      var v := NextView(c);
      var d := c.(expectedView := c.expectedView[c.bookkeeperIndex := v]);
      AheadGrows(c.expectedView, c.bookkeeperIndex, v, c.viewNumber, c.bookkeeperIndex);
      CheckExpectedViewGood(d, v, l, verify);
    }
  }

  lemma PrepareResponseGood(c: Context, from: nat, sig: Bytes, submitted: bool, verify: Verify)
    requires CtxInv(c, verify) && from < c.bookkeepers
    ensures Good(c, Stepped(PrepareResponseReceived(c, from, sig, submitted, verify), None), verify)
  {
  }

  lemma {:induction false} AddSignaturesVerify(signatures: seq<Option<Bytes>>, sigs: seq<IndexedSig>, h: Header,
                                               verify: Verify)
    requires |signatures| > 0
    ensures var r := AddSignatures(signatures, sigs, h, verify);
      r.Some? && AllVerify(signatures, h, verify) ==> AllVerify(r.value, h, verify)
    decreases |sigs|
  {
    if sigs != [] {
      var s := sigs[0];
      AddSignaturesVerify(signatures, sigs[1..], h, verify);
      if s.index < |signatures| && verify(s.index, h, s.signature) {
        AddSignaturesVerify(signatures[s.index := Some(s.signature)], sigs[1..], h, verify);
      }
    }
  }

  lemma BlockSignaturesGood(c: Context, from: nat, sigs: seq<IndexedSig>, submitted: bool, verify: Verify)
    requires CtxInv(c, verify) && from < c.bookkeepers
    ensures var r := BlockSignaturesReceived(c, from, sigs, submitted, verify);
      r.Some? ==> Good(c, Stepped(r.value, None), verify)
  {
    var c1 := MakeHeader(c);
    AddedLength(c1.signatures, sigs, c1.header.value, verify);
    AddSignaturesVerify(c1.signatures, sigs, c1.header.value, verify);
  }

  /** The own signature on the header built from an accepted request verifies. */
  ghost predicate SignsWell(c: Context, req: Request, f: Findings, verify: Verify)
  {
    f.signature.Some? && c.bookkeeperIndex >= 0 ==>
      verify(c.bookkeeperIndex, TakeRequest(c, req).header.value, f.signature.value)
  }

  lemma PrepareRequestGood(c: Context, from: nat, req: Request, f: Findings, l: Ledger, verify: Verify)
    requires CtxInv(c, verify) && LedgerOk(l) && from < c.bookkeepers && from != c.bookkeeperIndex
    requires SignsWell(c, req, f, verify) && !c.state.blockGenerated
    ensures Good(c, PrepareRequestReceived(c, from, req, f, l, verify), verify)
  {
    if c.bookkeeperIndex >= 0 { RequestChangeViewGood(c, l, verify); }
  }

  /** A reset starts afresh, at whatever height the ledger says. */
  ghost predicate Afresh(s: Stepped, l: Ledger)
  {
    && s.context.height == U32(l.height + 1) && s.context.viewNumber == 0
    && !Busy(s.context) && s.signed.None?
  }

  lemma ResetGood(c: Context, l: Ledger, verify: Verify)
    requires Wf(c) && LedgerOk(l)
    ensures var d := InitializeConsensus(c, 0, l); CtxInv(d, verify) && Afresh(Stepped(d, None), l)
  {
    hide IsPrimary;
    var d := InitializeConsensus(c, 0, l);
    ViewPrimary(d.height, 0, l.bookkeepers);
    AllAhead(l.bookkeepers, l.bookkeeperIndex);
    assert d.expectedView == seq(l.bookkeepers, _ => 0);
    assert Wf(d);
  }

  /** The timer makes a bookkeeper ask for the next view. */
  predicate AsksForView(c: Context)
  {
    && c.timerHeight == c.height && c.timeView == c.viewNumber
    && (c.state.backup || c.state.primary) && (c.state.primary ==> c.state.requestSent)
  }

  /** An event resets the context: a block was saved, or a single bookkeeper asks for view 0
      again, which is a reset too. */
  predicate Resets(c: Context, e: Event)
  {
    e.Persisted? || (e.TimedOut? && AsksForView(c) && FallsBack(c))
  }

  lemma TimeoutGood(c: Context, p: Proposal, l: Ledger, verify: Verify)
    requires CtxInv(c, verify) && LedgerOk(l) && !Resets(c, TimedOut(p))
    ensures Good(c, Timeout(c, p, l), verify)
  {
    hide RequestChangeView;
    if AsksForView(c) { RequestChangeViewGood(c, l, verify); }
  }

  lemma WrapGood(c: Context, p: Proposal, l: Ledger, verify: Verify)
    requires CtxInv(c, verify) && LedgerOk(l) && Resets(c, TimedOut(p))
    ensures CtxInv(Timeout(c, p, l).context, verify) && Afresh(Timeout(c, p, l), l)
  {
    hide RequestChangeView, InitializeConsensus, CtxInv, Afresh;
    AloneMoves(c, l);
    ResetGood(c.(expectedView := c.expectedView[0 := NextView(c)]), l, verify);
  }

  /** What a run assumes of its environment: the own key signs correctly. Messages, timers
      and resets are arbitrary, and so is the number of bookkeepers. */
  ghost predicate EventOk(c: Context, e: Event, l: Ledger, verify: Verify)
  {
    && LedgerOk(l)
    && (e.Received? ==> PayloadOk(e.payload))
    && (e.Received? && e.payload.message.PrepareRequestMsg? ==>
        SignsWell(c, e.payload.message.request, e.payload.message.findings, verify))
  }

  lemma NoMove(c: Context, verify: Verify)
    requires CtxInv(c, verify)
    ensures Good(c, Stepped(c, None), verify)
  {
  }

  lemma ReceivedGood(c: Context, p: Payload, l: Ledger, verify: Verify)
    requires CtxInv(c, verify) && EventOk(c, Received(p), l, verify)
    ensures var r := Deliver(c, p, l, verify); r.Some? ==> Good(c, r.value, verify)
  {
    hide CtxInv, Moves;
    if Relevant(c, p) {
      match p.message
      case ChangeViewMsg(v) => ChangeViewReceivedGood(c, p.from, v, l, verify);
      case PrepareRequestMsg(req, f) => PrepareRequestGood(c, p.from, req, f, l, verify);
      case PrepareResponseMsg(sig, submitted) => PrepareResponseGood(c, p.from, sig, submitted, verify);
      case BlockSignaturesMsg(sigs, submitted) => BlockSignaturesGood(c, p.from, sigs, submitted, verify);
    } else {
      NoMove(c, verify);
    }
  }

  /** Every event keeps the context in order, and moves it forward or resets it. */
  lemma StepGood(c: Context, e: Event, l: Ledger, verify: Verify)
    requires CtxInv(c, verify) && EventOk(c, e, l, verify)
    ensures var r := Step(c, e, l, verify);
      r.Some? ==> CtxInv(r.value.context, verify) && if Resets(c, e) then Afresh(r.value, l) else Moves(c, r.value)
  {
    match e
    case Persisted => ResetGood(c, l, verify);
    case TimedOut(p) =>
      hide CtxInv, Moves, Afresh;
      if Resets(c, e) { WrapGood(c, p, l, verify); } else { TimeoutGood(c, p, l, verify); }
    case Received(p) => ReceivedGood(c, p, l, verify);
  }

  // ---------- one bookkeeper over a whole run ----------

  /** A header signed in a view of a height. */
  datatype Record = Record(height: nat, view: nat, header: Header)

  datatype Node = Node(context: Context, history: set<Record>)

  function Advance(a: Node, s: Stepped): Node
  {
    Node(s.context, a.history +
         (if s.signed.Some? then {Record(a.context.height, a.context.viewNumber, s.signed.value)} else {}))
  }

  ghost predicate NodeStep(a: Node, b: Node, e: Event, l: Ledger, verify: Verify)
  {
    Wf(a.context) && EventOk(a.context, e, l, verify) &&
    var r := Step(a.context, e, l, verify); r.Some? && b == Advance(a, r.value)
  }

  /** A record is over: an earlier height, an earlier view, or a view in which the
      bookkeeper is busy. */
  ghost predicate Over(r: Record, c: Context)
  {
    || r.height < c.height
    || (r.height == c.height && r.view < c.viewNumber)
    || (r.height == c.height && r.view == c.viewNumber && Busy(c))
  }

  ghost predicate SignsOnce(history: set<Record>)
  {
    forall r, s :: r in history && s in history && r.height == s.height && r.view == s.view ==> r.header == s.header
  }

  ghost predicate NodeInv(a: Node, verify: Verify)
  {
    && CtxInv(a.context, verify)
    && (forall r :: r in a.history ==> Over(r, a.context))
    && SignsOnce(a.history)
  }

  /** A freshly started bookkeeper: the first `InitializeConsensus(0)`. */
  ghost predicate Start(a: Node)
  {
    && a.history == {}
    && exists c: Context, l: Ledger :: Wf(c) && LedgerOk(l) && a.context == InitializeConsensus(c, 0, l)
  }

  lemma StartInv(a: Node, verify: Verify)
    requires Start(a)
    ensures NodeInv(a, verify)
  {
    var c: Context, l: Ledger :| Wf(c) && LedgerOk(l) && a.context == InitializeConsensus(c, 0, l);
    ResetGood(c, l, verify);
  }

  /** A reset opens a height at which, and above which, nothing was signed. */
  ghost predicate Unsigned(a: Node, e: Event, l: Ledger)
  {
    Resets(a.context, e) ==> forall r :: r in a.history ==> r.height < U32(l.height + 1)
  }

  /** A reset opens a later height, or its height again while the view is still the first. */
  predicate Climbs(c: Context, e: Event, l: Ledger)
  {
    Resets(c, e) ==> U32(l.height + 1) > c.height || (U32(l.height + 1) == c.height && c.viewNumber == 0)
  }

  /** A reset keeps the signing invariant exactly when nothing was signed at its height. */
  lemma ResetExact(a: Node, b: Node, l: Ledger, verify: Verify)
    requires NodeInv(a, verify) && LedgerOk(l)
    requires b == Advance(a, Stepped(InitializeConsensus(a.context, 0, l), None))
    ensures NodeInv(b, verify) <==> forall r :: r in a.history ==> r.height < U32(l.height + 1)
  {
    ResetGood(a.context, l, verify);
    hide CtxInv, InitializeConsensus;
    assert b.history == a.history;
  }

  /** Every step keeps the signing invariant, a reset exactly when nothing was signed at
      the height that it opens. */
  lemma NodeStepInv(a: Node, b: Node, e: Event, l: Ledger, verify: Verify)
    requires NodeInv(a, verify) && NodeStep(a, b, e, l, verify)
    ensures NodeInv(b, verify) <==> Unsigned(a, e, l)
    ensures a.history <= b.history
  {
    hide CtxInv, Step, Resets;
    StepGood(a.context, e, l, verify);
  }

  ghost predicate NotBack(c: Context, d: Context)
  {
    d.height > c.height || (d.height == c.height && d.viewNumber >= c.viewNumber)
  }

  /** No step goes back to an earlier height or view, a reset exactly when it climbs. */
  lemma StepClimbs(a: Node, b: Node, e: Event, l: Ledger, verify: Verify)
    requires CtxInv(a.context, verify) && NodeStep(a, b, e, l, verify)
    ensures NotBack(a.context, b.context) <==> Climbs(a.context, e, l)
    ensures CtxInv(b.context, verify)
  {
    hide CtxInv, Step, Resets;
    StepGood(a.context, e, l, verify);
  }

  // ---------- the network ----------

  /** The correct bookkeepers by number. Each step is a step of one of them; what the
      others send is arbitrary, so nothing else of the network is needed. */
  type Net = map<nat, Node>

  /** What happens to whom, and what the ledger says then. */
  datatype Act = Act(id: nat, event: Event, ledger: Ledger)

  ghost predicate NetStep(n: Net, n': Net, a: Act, verify: map<nat, Verify>)
  {
    && n'.Keys == n.Keys <= verify.Keys && a.id in n
    && NodeStep(n[a.id], n'[a.id], a.event, a.ledger, verify[a.id])
    && forall j :: j in n && j != a.id ==> n'[j] == n[j]
  }

  ghost predicate NetRun(run: seq<Net>, acts: seq<Act>, verify: map<nat, Verify>)
  {
    && |run| == |acts| + 1 && run[0].Keys <= verify.Keys
    && (forall id :: id in run[0] ==> Start(run[0][id]))
    && (forall k :: 0 <= k < |acts| ==> NetStep(run[k], run[k + 1], acts[k], verify))
  }

  /** No correct bookkeeper is reset to a height at which it has signed. */
  ghost predicate ResetsUnsigned(run: seq<Net>, acts: seq<Act>)
    requires |run| == |acts| + 1
  {
    forall k :: 0 <= k < |acts| ==>
      acts[k].id in run[k] && Unsigned(run[k][acts[k].id], acts[k].event, acts[k].ledger)
  }

  /** No correct bookkeeper is reset to an earlier height, nor in a later view to its own. */
  ghost predicate ResetsClimb(run: seq<Net>, acts: seq<Act>)
    requires |run| == |acts| + 1
  {
    forall k :: 0 <= k < |acts| ==>
      acts[k].id in run[k] && Climbs(run[k][acts[k].id].context, acts[k].event, acts[k].ledger)
  }

  ghost predicate NetInv(n: Net, verify: map<nat, Verify>)
  {
    n.Keys <= verify.Keys && forall id :: id in n ==> NodeInv(n[id], verify[id])
  }

  lemma {:induction false} RunInv(run: seq<Net>, acts: seq<Act>, verify: map<nat, Verify>, k: nat)
    requires NetRun(run, acts, verify) && ResetsUnsigned(run, acts) && k < |run|
    ensures NetInv(run[k], verify) && run[k].Keys == run[0].Keys
  {
    hide NodeInv, NodeStep, Start, Unsigned;
    if k == 0 {
      forall id | id in run[0] ensures NodeInv(run[0][id], verify[id]) { StartInv(run[0][id], verify[id]); }
    } else {
      RunInv(run, acts, verify, k - 1);
      var n, n', a := run[k - 1], run[k - 1 + 1], acts[k - 1];
      assert NetStep(n, n', a, verify);
      NodeStepInv(n[a.id], n'[a.id], a.event, a.ledger, verify[a.id]);
    }
  }

  /** Whatever is reset, every context of every run is in order. */
  lemma {:induction false} RunContexts(run: seq<Net>, acts: seq<Act>, verify: map<nat, Verify>, k: nat)
    requires NetRun(run, acts, verify) && k < |run|
    ensures run[k].Keys == run[0].Keys && forall id :: id in run[k] ==> CtxInv(run[k][id].context, verify[id])
  {
    hide CtxInv, NodeStep, Start, Climbs, NotBack;
    if k == 0 {
      forall id | id in run[0] ensures CtxInv(run[0][id].context, verify[id]) { StartInv(run[0][id], verify[id]); }
    } else {
      RunContexts(run, acts, verify, k - 1);
      var n, n', a := run[k - 1], run[k - 1 + 1], acts[k - 1];
      assert NetStep(n, n', a, verify);
      StepClimbs(n[a.id], n'[a.id], a.event, a.ledger, verify[a.id]);
    }
  }

  /** Within a height no bookkeeper ever returns to a view it has left. */
  lemma {:induction false} ViewsOnlyGoUp(run: seq<Net>, acts: seq<Act>, verify: map<nat, Verify>, id: nat,
                                         i: nat, j: nat)
    requires NetRun(run, acts, verify) && ResetsClimb(run, acts) && i <= j < |run| && id in run[0]
    ensures id in run[i] && id in run[j] && NotBack(run[i][id].context, run[j][id].context)
    decreases j
  {
    hide CtxInv, NodeStep, Start, Climbs;
    RunContexts(run, acts, verify, i);
    RunContexts(run, acts, verify, j);
    if i < j {
      ViewsOnlyGoUp(run, acts, verify, id, i, j - 1);
      RunContexts(run, acts, verify, j - 1);
      var n, n', a := run[j - 1], run[j - 1 + 1], acts[j - 1];
      assert NetStep(n, n', a, verify);
      StepClimbs(n[a.id], n'[a.id], a.event, a.ledger, verify[a.id]);
    }
  }

  /** The primary of view `v` at height `h` is bookkeeper `h - v`, counted around. Where the view
      is above the height the uint32 wraps, and this is so exactly if 2^32 is a multiple of the
      number of bookkeepers. */
  predicate Rotates(c: Context)
  {
    && c.bookkeepers > 0 && c.primaryIndex < c.bookkeepers
    && ((c.primaryIndex + c.viewNumber) % c.bookkeepers == c.height % c.bookkeepers <==>
        c.viewNumber <= c.height || U32_SIZE % c.bookkeepers == 0)
  }

  lemma ContextRotates(c: Context, verify: Verify)
    requires CtxInv(c, verify)
    ensures Rotates(c)
  {
    hide ViewInv, RoleInv, SigInv;
    Modulo.SameModulo(c.height + U32_SIZE, c.height, c.bookkeepers);
  }

  /** In every state of every run the primary goes with height and view. */
  lemma PrimaryRotates(run: seq<Net>, acts: seq<Act>, verify: map<nat, Verify>, k: nat, id: nat)
    requires NetRun(run, acts, verify) && k < |run| && id in run[k]
    ensures Rotates(run[k][id].context)
  {
    hide CtxInv, Rotates, NetStep;
    RunContexts(run, acts, verify, k);
    ContextRotates(run[k][id].context, verify[id]);
  }

  /** In one view of a height the primary is the same, and in two views exactly when these are a
      multiple of the number of bookkeepers apart. */
  predicate PrimariesGoWithViews(c: Context, d: Context)
    requires c.bookkeepers > 0
  {
    && (c.primaryIndex == d.primaryIndex <==> ViewsApart(c.height, c.viewNumber, d.viewNumber) % c.bookkeepers == 0)
    && (c.viewNumber == d.viewNumber ==> c.primaryIndex == d.primaryIndex)
    && (c.viewNumber < d.viewNumber < c.viewNumber + c.bookkeepers && d.viewNumber <= c.height ==>
        c.primaryIndex != d.primaryIndex)
  }

  lemma ViewsSmall(height: nat, v: nat, w: nat, n: nat)
    requires n > 0
    ensures ViewsApart(height, v, v) % n == 0
    ensures v < w < v + n && w <= height ==> ViewsApart(height, v, w) % n != 0
  {
    assert 0 % n == 0;
    if v < w < v + n && w <= height && (w - v) % n == 0 { Modulo.SmallModulo(w - v, n); }
  }

  lemma ContextPrimaries(c: Context, d: Context, verify: Verify, verify': Verify)
    requires CtxInv(c, verify) && CtxInv(d, verify') && c.height == d.height && c.bookkeepers == d.bookkeepers
    ensures PrimariesGoWithViews(c, d)
  {
    hide ViewInv, RoleInv, SigInv, IsPrimary;
    SamePrimary(c.primaryIndex, d.primaryIndex, c.height, c.viewNumber, d.viewNumber, c.bookkeepers);
    ViewsSmall(c.height, c.viewNumber, d.viewNumber, c.bookkeepers);
  }

  /** Any two bookkeepers, at any two moments of a run at which they are at one height. */
  lemma PrimariesExact(run: seq<Net>, acts: seq<Act>, verify: map<nat, Verify>, j: nat, k: nat, id: nat, other: nat)
    requires NetRun(run, acts, verify) && j < |run| && k < |run| && id in run[j] && other in run[k]
    requires var c, d := run[j][id].context, run[k][other].context;
      c.height == d.height && c.bookkeepers == d.bookkeepers > 0
    ensures PrimariesGoWithViews(run[j][id].context, run[k][other].context)
  {
    hide CtxInv, PrimariesGoWithViews, NetStep;
    RunContexts(run, acts, verify, j);
    RunContexts(run, acts, verify, k);
    ContextPrimaries(run[j][id].context, run[k][other].context, verify[id], verify[other]);
  }

  /** `q` is a set of bookkeepers whose correct members all signed `h` in this view. */
  ghost predicate Signers(n: Net, q: set<nat>, height: nat, view: nat, h: Header)
  {
    forall id :: id in q && id in n ==> Record(height, view, h) in n[id].history
  }

  lemma QuorumsMeet(n: nat)
    requires n > 0
    ensures 2 * M(n) - n > (n - 1) / 3
  {
  }

  /** Agreement within a view: with at most a third of the bookkeepers `all` faulty, two
      headers that both gathered a quorum of signatures made in the same view of the
      same height are the same header. */
  lemma AtMostOneHeaderPerView(run: seq<Net>, acts: seq<Act>, verify: map<nat, Verify>, k: nat, all: set<nat>,
                               p: set<nat>, q: set<nat>, height: nat, view: nat, g: Header, h: Header)
    requires NetRun(run, acts, verify) && ResetsUnsigned(run, acts) && k < |run|
    requires |all| > 0 && |all - run[k].Keys| <= (|all| - 1) / 3
    requires p <= all && |p| >= M(|all|) && Signers(run[k], p, height, view, g)
    requires q <= all && |q| >= M(|all|) && Signers(run[k], q, height, view, h)
    ensures g == h
  {
    hide NetRun, ResetsUnsigned, Over;
    RunInv(run, acts, verify, k);
    var n, faulty := run[k], all - run[k].Keys;
    Overlap(p, q, all);
    QuorumsMeet(|all|);
    assert !(p * q <= faulty) by {
      if p * q <= faulty { SubsetSize(p * q, faulty); }
    }
    var id :| id in p * q && id !in faulty;
    assert NodeInv(n[id], verify[id]);
  }

  // ---------- where the promises end ----------

  /** A single bookkeeper falls back to view 0 exactly when its view or its expected view
      has reached the last byte value; with two or more this cannot happen. */
  lemma AloneWraps(c: Context, l: Ledger)
    requires Wf(c) && LedgerOk(l) && Alone(c) && !c.state.blockGenerated
    ensures RequestChangeView(c, l).viewNumber < c.viewNumber <==>
      c.viewNumber > 0 && (c.expectedView[0] == 255 || c.viewNumber == 255)
  {
    hide RequestChangeView;
    AloneMoves(c, l);
  }

  /** Reset twice at one height, a primary signs two headers for the same view. */
  lemma SameHeightTwice(c: Context, l: Ledger, p: Proposal, q: Proposal, verify: Verify)
    requires Wf(c) && LedgerOk(l) && l.bookkeeperIndex == U32(l.height + 1) % l.bookkeepers
    requires p.Proposed? && q.Proposed? && p.signature.Some? && q.signature.Some? && p.nonce != q.nonce
    ensures var a := Step(c, Persisted, l, verify).value.context;
      var s := Timeout(a, p, l);
      var b := Step(s.context, Persisted, l, verify).value.context;
      var t := Timeout(b, q, l);
      && a.height == b.height && a.viewNumber == b.viewNumber == 0
      && s.signed.Some? && t.signed.Some? && s.signed != t.signed
  {
  }
}
