/** `DbftService` of consensus/dbft/dbft_service.go as the object it is: handlers that
    update the context in place. Each is tied to the step function of module Dbft, and
    the ghost history records what was signed, so the invariants proved for every run
    hold of the object. */
module DbftService {
  import opened Common
  import opened Dbft
  import opened DbftEffects
  import opened DbftSafety

  lemma ExpectingNext(expected: seq<nat>, x: nat, view: nat)
    ensures |Expecting(expected + [x], view)| == |Expecting(expected, view)| + (if x == view then 1 else 0)
  {
    var a, b := Expecting(expected, view), Expecting(expected + [x], view);
    if x == view {
      assert b == a + {|expected|};
    } else {
      assert b == a;
    }
  }

  lemma EventFacts(a: Node, e: Event, l: Ledger, verify: Verify)
    requires NodeInv(a, verify) && EventOk(a.context, e, l, verify)
    ensures Wf(a.context) && LedgerOk(l) && (e.Received? ==> PayloadOk(e.payload))
  {
  }

  lemma StepOf(a: Node, b: Node, e: Event, l: Ledger, verify: Verify)
    requires Wf(a.context) && EventOk(a.context, e, l, verify)
    requires var r := Step(a.context, e, l, verify); r.Some? && b == Advance(a, r.value)
    ensures NodeStep(a, b, e, l, verify)
  {
  }

  class Service {
    var context: Context
    const verify: Verify
    ghost var history: set<Record>

    /** The object as a node of the network model. */
    ghost function AsNode(): Node
      reads this
    {
      Node(context, history)
    }

    constructor (c: Context, verify: Verify)
      ensures context == c && this.verify == verify && history == {}
    {
      context := c;
      this.verify := verify;
      history := {};
    }

    method MakeHeader() returns (h: Header)
      modifies this`context
      ensures context == Dbft.MakeHeader(old(context)) && context.header == Some(h)
    {
      if context.header.None? {
        h := Header(context.prevHash, context.height, context.transactions, context.timestamp, context.nonce,
                    context.nextBookkeeper);
        context := context.(header := Some(h));
      }
      h := context.header.value;
    }

    method InitializeConsensus(view: nat, l: Ledger)
      requires Wf(context) && LedgerOk(l)
      modifies this`context
      ensures context == Dbft.InitializeConsensus(old(context), view, l)
      ensures old(context.height) < U32_SIZE && view < 256 ==> Initialized(old(context), context, view, l)
    {
      hide Initialized;
      if context.height < U32_SIZE && view < 256 { InitializeTells(context, view, l); }
      if view == 0 {
        context := Reset(context, l);
      } else {
        if context.state.blockGenerated { return; }
        context := ChangeView(context, view);
      }
      if context.bookkeeperIndex < 0 { return; }
      if context.bookkeeperIndex == context.primaryIndex {
        context := context.(state := context.state.(primary := true));
      } else {
        context := context.(state := BACKUP);
      }
      context := context.(timerHeight := context.height, timeView := view);
    }

    method CheckExpectedView(view: nat, l: Ledger)
      requires Wf(context) && LedgerOk(l)
      modifies this`context
      ensures context == Dbft.CheckExpectedView(old(context), view, l)
    {
      if context.state.blockGenerated { return; }
      if context.viewNumber == view { return; }
      var count := 0;
      for i := 0 to |context.expectedView|
        invariant context == old(context)
        invariant count == |Expecting(context.expectedView[..i], view)|
      {
        ExpectingNext(context.expectedView[..i], context.expectedView[i], view);
        assert context.expectedView[..i + 1] == context.expectedView[..i] + [context.expectedView[i]];
        if context.expectedView[i] == view {
          count := count + 1;
        }
      }
      assert context.expectedView[..|context.expectedView|] == context.expectedView;
      if count >= M(context.bookkeepers) {
        InitializeConsensus(view, l);
      }
    }

    method ChangeViewReceived(from: nat, newView: nat, l: Ledger)
      requires Wf(context) && LedgerOk(l) && from < context.bookkeepers && newView < 256
      modifies this`context
      ensures context == Dbft.ChangeViewReceived(old(context), from, newView, l)
    {
      if newView <= context.expectedView[from] { return; }
      context := context.(expectedView := context.expectedView[from := newView]);
      CheckExpectedView(newView, l);
    }

    method RequestChangeView(l: Ledger)
      requires Wf(context) && LedgerOk(l) && context.bookkeeperIndex >= 0
      modifies this`context
      ensures context == Dbft.RequestChangeView(old(context), l)
    {
      if context.state.blockGenerated { return; }
      var me := context.bookkeeperIndex;
      var next := if context.viewNumber > context.expectedView[me] then (context.viewNumber + 1) % 256
                  else (context.expectedView[me] + 1) % 256;
      context := context.(expectedView := context.expectedView[me := next]);
      CheckExpectedView(context.expectedView[me], l);
    }

    method GetSignaturesCount() returns (count: nat)
      ensures count == SignatureCount(context.signatures)
    {
      count := 0;
      for i := 0 to |context.signatures|
        invariant count == SignatureCount(context.signatures[..i])
      {
        assert context.signatures[..i + 1][..i] == context.signatures[..i];
        if context.signatures[i].Some? { count := count + 1; }
      }
      assert context.signatures[..|context.signatures|] == context.signatures;
    }

    /** Returns the signatures that go out with the finished block: the first quorum of
        stored ones, in the order of the bookkeepers. */
    method CheckSignatures(submitted: bool) returns (sigs: seq<IndexedSig>)
      requires Wf(context)
      modifies this`context
      ensures context == Dbft.CheckSignatures(old(context), submitted)
      ensures |sigs| ==
        if SignatureCount(old(context).signatures) >= M(context.bookkeepers) then M(context.bookkeepers) else 0
      ensures forall j :: 0 <= j < |sigs| ==>
        sigs[j].index < |context.signatures| && context.signatures[sigs[j].index] == Some(sigs[j].signature)
      ensures forall j, k :: 0 <= j < k < |sigs| ==> sigs[j].index < sigs[k].index
    {
      sigs := [];
      var count := GetSignaturesCount();
      var quorum := M(context.bookkeepers);
      if count >= quorum {
        var h := MakeHeader();
        var i := 0;
        while i < |context.signatures| && |sigs| < quorum
          invariant 0 <= i <= |context.signatures|
          invariant |sigs| <= quorum && (|sigs| < quorum ==> |sigs| == SignatureCount(context.signatures[..i]))
          invariant forall j :: 0 <= j < |sigs| ==>
            sigs[j].index < i && context.signatures[sigs[j].index] == Some(sigs[j].signature)
          invariant forall j, k :: 0 <= j < k < |sigs| ==> sigs[j].index < sigs[k].index
        {
          assert context.signatures[..i + 1][..i] == context.signatures[..i];
          if context.signatures[i].Some? {
            sigs := sigs + [IndexedSig(i, context.signatures[i].value)];
          }
          i := i + 1;
        }
        assert context.signatures[..|context.signatures|] == context.signatures;
        if submitted {
          context := context.(state := context.state.(blockGenerated := true));
        }
      }
    }

    method PrepareResponseReceived(from: nat, sig: Bytes, submitted: bool)
      requires Wf(context) && from < context.bookkeepers
      modifies this`context
      ensures context == Dbft.PrepareResponseReceived(old(context), from, sig, submitted, verify)
    {
      if context.state.blockGenerated { return; }
      if context.signatures[from].Some? { return; }
      var h := MakeHeader();
      if !verify(from, h, sig) { return; }
      context := context.(signatures := context.signatures[from := Some(sig)]);
      var sigs := CheckSignatures(submitted);
    }

    /** `ok` is false when an index lies outside the table and the handler panics. */
    method BlockSignaturesReceived(from: nat, sigs: seq<IndexedSig>, submitted: bool) returns (ok: bool)
      requires Wf(context) && from < context.bookkeepers
      modifies this`context
      ensures var r := Dbft.BlockSignaturesReceived(old(context), from, sigs, submitted, verify);
        ok == r.Some? && (ok ==> context == r.value)
    {
      if context.state.blockGenerated { return true; }
      if context.signatures[from].Some? { return true; }
      var h := MakeHeader();
      ghost var start := context;
      ghost var goal := AddSignatures(start.signatures, sigs, h, verify);
      AddedLength(start.signatures, sigs, h, verify);
      var i, done := 0, false;
      while i < |sigs| && !done
        invariant 0 <= i <= |sigs| && |context.signatures| == context.bookkeepers
        invariant context == start.(signatures := context.signatures)
        invariant if done then goal == Some(context.signatures)
                  else goal == AddSignatures(context.signatures, sigs[i..], h, verify)
      {
        var s := sigs[i];
        assert sigs[i..][1..] == sigs[i + 1..];
        if s.index >= |context.signatures| { return false; }
        if context.signatures[s.index].None? && verify(s.index, h, s.signature) {
          context := context.(signatures := context.signatures[s.index := Some(s.signature)]);
          var count := GetSignaturesCount();
          done := count >= M(context.bookkeepers);
        }
        i := i + 1;
      }
      var out := CheckSignatures(submitted);
      return true;
    }

    method PrepareRequestReceived(from: nat, req: Request, f: Findings, l: Ledger)
      requires Wf(context) && LedgerOk(l) && from < context.bookkeepers
      modifies this
      ensures var s := Dbft.PrepareRequestReceived(old(context), from, req, f, l, verify);
        AsNode() == Advance(old(AsNode()), s)
    {
      if !context.state.backup || context.state.requestReceived { return; }
      if from != context.primaryIndex { return; }
      if !f.timestampOk { return; }
      var backupContext := context;
      context := context.(state := context.state.(requestReceived := true), timestamp := req.timestamp,
                          nonce := req.nonce, nextBookkeeper := req.nextBookkeeper,
                          transactions := req.transactions, header := None);
      var h := MakeHeader();
      if !verify(from, h, req.signature) {
        context := backupContext;
        RequestChangeView(l);
        return;
      }
      context := context.(signatures := seq(context.bookkeepers, _ => None)[from := Some(req.signature)]);
      if |context.transactions| > 0 && !f.transactionsOk {
        context := backupContext;
        RequestChangeView(l);
        return;
      }
      if f.nextBookkeeper.None? {
        context := backupContext;
        return;
      }
      if f.nextBookkeeper.value != req.nextBookkeeper {
        context := backupContext;
        RequestChangeView(l);
        return;
      }
      context := context.(state := context.state.(signatureSent := true));
      if f.signature.None? { return; }
      context := context.(signatures := context.signatures[context.bookkeeperIndex := f.signature]);
      history := history + {Record(context.height, context.viewNumber, h)};
    }

    method Timeout(p: Proposal, l: Ledger)
      requires Wf(context) && LedgerOk(l)
      modifies this
      ensures AsNode() == Advance(old(AsNode()), Dbft.Timeout(old(context), p, l))
    {
      if context.timerHeight != context.height || context.timeView != context.viewNumber { return; }
      if context.state.primary && !context.state.requestSent {
        context := context.(state := context.state.(requestSent := true));
        if !context.state.signatureSent {
          if p.NoHeader? { return; }
          context := context.(timestamp := p.timestamp, nonce := p.nonce, transactions := p.transactions);
          if p.NoValidators? {
            if p.nextAssigned.Some? { context := context.(nextBookkeeper := p.nextAssigned.value); }
            return;
          }
          context := context.(nextBookkeeper := p.nextBookkeeper, header := None);
          var h := MakeHeader();
          context := context.(signatures := context.signatures[context.bookkeeperIndex := p.signature]);
          if p.signature.Some? {
            history := history + {Record(context.height, context.viewNumber, h)};
          }
        }
      } else if context.state.primary || context.state.backup {
        RequestChangeView(l);
      }
    }

    /** `Receive`: one event, one atomic step of the network model. The object keeps the
        signing invariant, whatever is delivered; a reset does exactly when nothing was
        signed at the height that it opens. */
    method Receive(e: Event, l: Ledger) returns (ok: bool)
      requires NodeInv(AsNode(), verify) && EventOk(context, e, l, verify)
      modifies this
      ensures ok == Step(old(context), e, l, verify).Some?
      ensures ok ==> NodeStep(old(AsNode()), AsNode(), e, l, verify)
      ensures ok ==> (NodeInv(AsNode(), verify) <==> Unsigned(old(AsNode()), e, l)) && old(history) <= history
    {
      hide NodeInv, EventOk, Unsigned;
      ghost var before := AsNode();
      EventFacts(before, e, l, verify);
      ok := Dispatch(e, l);
      if ok {
        StepOf(before, AsNode(), e, l, verify);
        NodeStepInv(before, AsNode(), e, l, verify);
      }
    }

    method Dispatch(e: Event, l: Ledger) returns (ok: bool)
      requires Wf(context) && LedgerOk(l) && (e.Received? ==> PayloadOk(e.payload))
      modifies this
      ensures var r := Step(old(context), e, l, verify);
        ok == r.Some? && (ok ==> AsNode() == Advance(old(AsNode()), r.value))
    {
      ok := true;
      match e
      case Persisted => InitializeConsensus(0, l);
      case TimedOut(p) => Timeout(p, l);
      case Received(p) =>
        if Relevant(context, p) {
          match p.message
          case ChangeViewMsg(v) => ChangeViewReceived(p.from, v, l);
          case PrepareRequestMsg(req, f) => PrepareRequestReceived(p.from, req, f, l);
          case PrepareResponseMsg(sig, submitted) => PrepareResponseReceived(p.from, sig, submitted);
          case BlockSignaturesMsg(sigs, submitted) => ok := BlockSignaturesReceived(p.from, sigs, submitted);
        }
    }
  }
}
