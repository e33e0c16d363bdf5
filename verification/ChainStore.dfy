/** The write-behind store of consensus/vbft/chain_store.go over a ledger that accepts
    only its next height (core/store/ledgerstore/ledger_store.go): every run of additions,
    submissions and reloads, with failures, is one growing sequence of blocks. */
module ChainStore {
  import opened Common

  datatype Block = Block(height: nat, content: Bytes)

  /** The result of executing a block, known by the blocks that it was executed on. */
  datatype ExecResult = ExecResult(parent: seq<Block>)

  datatype PendingBlock = PendingBlock(block: Block, result: ExecResult, hasSubmitted: bool)

  /** `ledger` holds the persisted blocks by height, the genesis block first. What is
      added (`chain`) and what is submitted (`submits`, by height) is kept as history. */
  datatype State = State(chained: nat, pending: map<nat, PendingBlock>, ledger: seq<Block>,
                         chain: seq<Block>, submits: seq<nat>)

  /** What the ledger answers beyond its own height checks. */
  datatype Answer = Answer(closing: bool, accepts: bool, executes: bool)

  /** `LedgerStoreImp.SubmitBlock`: `None` for an error. */
  function LedgerSubmit(ledger: seq<Block>, b: Block, a: Answer): Option<seq<Block>>
  {
    if a.closing then None
    else if b.height < |ledger| then Some(ledger)
    else if b.height > |ledger| || !a.accepts then None
    else Some(ledger + [b])
  }

  /** `LedgerStoreImp.ExecuteBlock`: `None` for an error. */
  function LedgerExecute(ledger: seq<Block>, b: Block, a: Answer): Option<ExecResult>
  {
    if b.height > |ledger| || !a.executes then None
    else Some(ExecResult(ledger[..b.height]))
  }

  /** `OpenBlockStore` over a ledger. */
  function Open(ledger: seq<Block>): State
    requires ledger != []
  {
    var n := |ledger| - 1;
    State(n, map[n := PendingBlock(ledger[n], ExecResult(ledger[..n]), true)], ledger, ledger, [])
  }

  function SubmitBlock(s: State, n: nat, a: Answer): State
  {
    if n == 0 || n !in s.pending || s.pending[n].hasSubmitted then s
    else
      match LedgerSubmit(s.ledger, s.pending[n].block, a)
      case None => s
      case Some(ledger) =>
        s.(ledger := ledger, submits := s.submits + [n],
           pending := (s.pending - {n - 1})[n := s.pending[n].(hasSubmitted := true)])
  }

  function AddBlock(s: State, b: Block, a: Answer): State
  {
    if b.height <= s.chained then s
    else
      var n := s.chained + 1;
      var t := SubmitBlock(s, n - 1, a);
      match LedgerExecute(t.ledger, b, a)
      case None => t
      case Some(result) =>
        t.(pending := t.pending[n := PendingBlock(b, result, false)], chained := n, chain := t.chain + [b])
  }

  /** `ReloadFromLedger`: takes over what others have persisted. */
  function Reload(s: State): State
    requires s.ledger != []
  {
    var height := |s.ledger| - 1;
    if height <= s.chained then s
    else s.(chained := height, chain := s.ledger, pending := map n | n in s.pending && n > height :: s.pending[n])
  }

  function GetBlock(s: State, n: nat): Option<Block>
  {
    if n in s.pending then Some(s.pending[n].block)
    else if n < |s.ledger| then Some(s.ledger[n])
    else None
  }

  datatype Step =
    | Add(block: Block, answer: Answer)
    | Submit(height: nat, answer: Answer)
    | Reloaded
    | Persisted(block: Block)   // by another writer of the ledger

  /** The last step: the ledger takes blocks from elsewhere too. */
  function Next(s: State, step: Step): State
    requires s.ledger != []
  {
    match step
    case Add(b, a) => AddBlock(s, b, a)
    case Submit(n, a) => SubmitBlock(s, n, a)
    case Reloaded => Reload(s)
    case Persisted(b) => if b.height == |s.ledger| then s.(ledger := s.ledger + [b]) else s
  }

  // ---------- what every run keeps ----------

  ghost predicate Heights(chain: seq<Block>)
  {
    forall i :: 0 <= i < |chain| ==> chain[i].height == i
  }

  ghost predicate Agree(a: seq<Block>, b: seq<Block>)
  {
    forall i :: 0 <= i < |a| && i < |b| ==> a[i] == b[i]
  }

  /** A pending block is the chain's and was executed on its ancestors; it stays while
      the ledger lacks it. */
  ghost predicate PendingOk(s: State, n: nat)
    requires n in s.pending
  {
    var p := s.pending[n];
    && n < |s.chain| && p.block == s.chain[n] && p.result.parent == s.chain[..n]
    && (n < |s.ledger| || (!p.hasSubmitted && n == s.chained))
  }

  /** No block is submitted twice, and none that is not yet marked was submitted. */
  ghost predicate SubmitsOk(s: State)
  {
    && (forall i, j :: 0 <= i < j < |s.submits| ==> s.submits[i] != s.submits[j])
    && (forall i :: 0 <= i < |s.submits| ==>
          var n := s.submits[i]; n <= s.chained && (n in s.pending ==> s.pending[n].hasSubmitted))
  }

  /** The chain and the ledger agree, and the ledger lags by at most the last block, which
      is then pending. */
  ghost predicate Inv(s: State)
  {
    && |s.ledger| > 0 && |s.chain| == s.chained + 1
    && Heights(s.chain) && Heights(s.ledger) && Agree(s.chain, s.ledger)
    && s.chained <= |s.ledger| && (s.chained == |s.ledger| ==> s.chained in s.pending)
    && (forall n :: n in s.pending ==> PendingOk(s, n))
    && SubmitsOk(s)
  }

  /** With no other writer the ledger never overtakes the store, only the last block
      waits, and submissions go up in height. */
  ghost predicate Sole(s: State)
  {
    && |s.ledger| <= s.chained + 1
    && (forall n :: n in s.pending && !s.pending[n].hasSubmitted ==> n == s.chained == |s.ledger|)
    && (forall i, j :: 0 <= i < j < |s.submits| ==> s.submits[i] < s.submits[j])
    && (forall i :: 0 <= i < |s.submits| ==> s.submits[i] < |s.ledger|)
  }

  lemma OpenInv(ledger: seq<Block>)
    requires ledger != [] && Heights(ledger)
    ensures Inv(Open(ledger)) && Sole(Open(ledger))
  {
  }

  lemma SubmitLogged(s: State, n: nat, t: State)
    requires SubmitsOk(s) && n in s.pending && !s.pending[n].hasSubmitted && n <= s.chained == t.chained
    requires t.submits == s.submits + [n]
    requires t.pending == (s.pending - {n - 1})[n := s.pending[n].(hasSubmitted := true)]
    ensures SubmitsOk(t)
  {
  }

  lemma AgreeNext(chain: seq<Block>, ledger: seq<Block>, b: Block)
    requires Heights(ledger) && Agree(chain, ledger) && b.height == |ledger|
    requires |ledger| < |chain| ==> chain[|ledger|] == b
    ensures Heights(ledger + [b]) && Agree(chain, ledger + [b])
  {
  }

  lemma HeightOf(ledger: seq<Block>, n: nat)
    requires Heights(ledger) && n < |ledger|
    ensures ledger[n].height == n
  {
  }

  lemma SubmitKeeps(s: State, n: nat, a: Answer)
    requires Inv(s)
    ensures Inv(SubmitBlock(s, n, a))
    ensures SubmitBlock(s, n, a).chain == s.chain && SubmitBlock(s, n, a).chained == s.chained
    ensures |s.ledger| <= s.chained + 1 ==> |SubmitBlock(s, n, a).ledger| <= s.chained + 1
  {
    hide Heights, Agree, SubmitsOk;
    var t := SubmitBlock(s, n, a);
    if t != s {
      assert PendingOk(s, n);
      HeightOf(s.chain, n);
      forall m | m in t.pending ensures PendingOk(t, m) { assert PendingOk(s, m); }
      SubmitLogged(s, n, t);
      if t.ledger != s.ledger {
        assert s.chain[n] == s.pending[n].block;
        AgreeNext(s.chain, s.ledger, s.pending[n].block);
      }
    }
  }

  /** The caller's part in `AddBlock`: while the ledger is not ahead of the store, nothing
      at all; after that the block must be the one that the ledger holds. */
  predicate AddOk(s: State, b: Block)
  {
    |s.ledger| <= s.chained + 1 || b.height <= s.chained || b == s.ledger[s.chained + 1]
  }

  lemma SubmitNoOp(s: State, n: nat, a: Answer)
    requires Inv(s) && n <= s.chained && |s.ledger| > s.chained
    ensures SubmitBlock(s, n, a).ledger == s.ledger
  {
    if n in s.pending { assert PendingOk(s, n); }
  }

  lemma AppendLogged(t: State, u: State, p: PendingBlock)
    requires SubmitsOk(t) && u.chained == t.chained + 1 && u.submits == t.submits
    requires u.pending == t.pending[u.chained := p]
    ensures SubmitsOk(u)
  {
  }

  /** An executed block goes on top. */
  lemma AppendKeeps(t: State, b: Block, result: ExecResult)
    requires Inv(t) && b.height == t.chained + 1 <= |t.ledger| && result.parent == t.ledger[..b.height]
    requires b.height < |t.ledger| ==> b == t.ledger[b.height]
    ensures var n := t.chained + 1;
      Inv(t.(pending := t.pending[n := PendingBlock(b, result, false)], chained := n, chain := t.chain + [b]))
  {
    hide SubmitsOk;
    var n := t.chained + 1;
    var u := t.(pending := t.pending[n := PendingBlock(b, result, false)], chained := n, chain := t.chain + [b]);
    assert t.ledger[..n] == t.chain;
    assert u.chain[..n] == t.chain;
    forall m | m in u.pending ensures PendingOk(u, m) {
      if m != n { assert PendingOk(t, m); assert u.chain[..m] == t.chain[..m]; }
    }
    AppendLogged(t, u, PendingBlock(b, result, false));
  }

  lemma AddKeeps(s: State, b: Block, a: Answer)
    requires Inv(s) && AddOk(s, b)
    ensures Inv(AddBlock(s, b, a)) && s.chain <= AddBlock(s, b, a).chain
  {
    hide Heights, Agree, SubmitsOk, SubmitBlock, PendingOk;
    if b.height > s.chained {
      SubmitKeeps(s, s.chained, a);
      var t := SubmitBlock(s, s.chained, a);
      var executed := LedgerExecute(t.ledger, b, a);
      if executed.Some? {
        if |s.ledger| > s.chained + 1 { HeightOf(s.ledger, s.chained + 1); SubmitNoOp(s, s.chained, a); }
        AppendKeeps(t, b, executed.value);
      }
    }
  }

  /** Outside `AddOk`, a block that executes breaks the store: the condition is exact. */
  lemma AddExact(s: State, b: Block, a: Answer)
    requires Inv(s)
    ensures Inv(AddBlock(s, b, a)) <==>
      AddOk(s, b) || LedgerExecute(SubmitBlock(s, s.chained, a).ledger, b, a).None?
  {
    hide SubmitsOk, SubmitBlock, PendingOk;
    if AddOk(s, b) {
      AddKeeps(s, b, a);
    } else {
      SubmitNoOp(s, s.chained, a);
      SubmitKeeps(s, s.chained, a);
      var n := s.chained + 1;
      if LedgerExecute(s.ledger, b, a).Some? {
        var u := AddBlock(s, b, a);
        assert u.chain[n] == b && u.ledger[n] != b;
      }
    }
  }

  /** Another writer of the ledger may write only what the store has, or what comes next. */
  predicate Allowed(s: State, step: Step)
  {
    match step
    case Add(b, _) => AddOk(s, b)
    case Persisted(b) => b.height < |s.chain| ==> b == s.chain[b.height]
    case _ => true
  }

  lemma SameSubmits(s: State, t: State)
    requires SubmitsOk(s) && t.submits == s.submits && t.chained >= s.chained
    requires forall n :: n in t.pending ==> n in s.pending && t.pending[n] == s.pending[n]
    ensures SubmitsOk(t)
  {
  }

  lemma ReloadKeeps(s: State)
    requires Inv(s)
    ensures Inv(Reload(s)) && s.chain <= Reload(s).chain
  {
    var t := Reload(s);
    if t != s {
      SameSubmits(s, t);
      assert s.chain == t.chain[..|s.chain|];
      forall m | m in s.pending ensures m <= s.chained { assert PendingOk(s, m); }
    }
  }

  lemma StepKeeps(s: State, step: Step)
    requires Inv(s) && Allowed(s, step)
    ensures Inv(Next(s, step)) && s.chain <= Next(s, step).chain
  {
    hide Heights, Agree, SubmitsOk, SubmitBlock, AddBlock, AddOk;
    match step
    case Add(b, a) => AddKeeps(s, b, a);
    case Submit(n, a) => SubmitKeeps(s, n, a);
    case Reloaded => ReloadKeeps(s);
    case Persisted(b) =>
      if b.height == |s.ledger| {
        AgreeNext(s.chain, s.ledger, b);
        var t := s.(ledger := s.ledger + [b]);
        forall m | m in t.pending ensures PendingOk(t, m) { assert PendingOk(s, m); }
        SameSubmits(s, t);
      }
  }

  ghost predicate Run(states: seq<State>, steps: seq<Step>)
  {
    && |states| == |steps| + 1
    && forall i :: 0 <= i < |steps| ==>
         states[i].ledger != [] && Allowed(states[i], steps[i]) && states[i + 1] == Next(states[i], steps[i])
  }

  lemma {:induction false} RunInv(states: seq<State>, steps: seq<Step>, j: nat, k: nat)
    requires Run(states, steps) && Inv(states[0]) && j <= k < |states|
    ensures Inv(states[k]) && states[j].chain <= states[k].chain
    decreases k
  {
    hide Inv, Next, Allowed;
    if k > 0 {
      RunInv(states, steps, if j < k then j else k - 1, k - 1);
      assert states[k - 1 + 1] == Next(states[k - 1], steps[k - 1]);
      StepKeeps(states[k - 1], steps[k - 1]);
    }
  }

  lemma RunLength(states: seq<State>, steps: seq<Step>)
    requires Run(states, steps)
    ensures |states| == |steps| + 1
  {
  }

  lemma ReadsBack(s: State, n: nat)
    requires Inv(s) && n <= s.chained
    ensures GetBlock(s, n) == Some(s.chain[n])
  {
    if n in s.pending { assert PendingOk(s, n); }
  }

  /** In every run from an opened store, with any failures: block `n` reads back as the
      block added at `n`, at that time and at any later time; the ledger is a prefix of
      what reads back, short by at most one block, which was executed on its ancestors;
      and nothing is submitted twice. */
  lemma StoreIsSequence(states: seq<State>, steps: seq<Step>, j: nat, k: nat, n: nat)
    requires Run(states, steps) && states[0].ledger != [] && Heights(states[0].ledger)
    requires states[0] == Open(states[0].ledger)
    requires j <= k < |states| && n <= states[j].chained
    ensures n < |states[j].chain| && GetBlock(states[j], n) == GetBlock(states[k], n) == Some(states[j].chain[n])
    ensures states[j].chain[n].height == n
    ensures n < |states[j].ledger| || (n == states[j].chained && n in states[j].pending
                                       && states[j].pending[n].result.parent == states[j].chain[..n])
    ensures forall a, b :: 0 <= a < b < |states[k].submits| ==> states[k].submits[a] != states[k].submits[b]
  {
    hide Next, Allowed, Run;
    assert |states| > 0 by { RunLength(states, steps); }
    OpenInv(states[0].ledger);
    RunInv(states, steps, 0, j);
    RunInv(states, steps, j, k);
    ReadsBack(states[j], n);
    ReadsBack(states[k], n);
    assert states[k].chain[..|states[j].chain|] == states[j].chain;
  }

  // ---------- the store as the only writer ----------

  lemma SoleSubmit(s: State, n: nat, a: Answer)
    requires Inv(s) && Sole(s)
    ensures Sole(SubmitBlock(s, n, a)) && SubmitBlock(s, n, a).chained == s.chained
  {
    hide Heights, Agree, SubmitsOk;
    if n in s.pending { assert PendingOk(s, n); HeightOf(s.chain, n); }
  }

  lemma SoleAdd(s: State, b: Block, a: Answer)
    requires Inv(s) && Sole(s)
    ensures Sole(AddBlock(s, b, a))
  {
    hide Heights, Agree, SubmitsOk, SubmitBlock;
    if b.height > s.chained { SoleSubmit(s, s.chained, a); SubmitKeeps(s, s.chained, a); }
  }

  lemma SoleKeeps(s: State, step: Step)
    requires Inv(s) && Sole(s) && (step.Add? || step.Submit?)
    ensures Allowed(s, step) && Inv(Next(s, step)) && Sole(Next(s, step))
  {
    hide Inv, SubmitBlock, AddBlock;
    StepKeeps(s, step);
    match step
    case Submit(n, a) => SoleSubmit(s, n, a);
    case Add(b, a) => SoleAdd(s, b, a);
  }

  /** In every run of additions and submissions from an opened store, submissions go up in
      height, and every accepted block is in the ledger. */
  lemma {:induction false} SoleRun(states: seq<State>, steps: seq<Step>, k: nat)
    requires Run(states, steps) && states[0].ledger != [] && Heights(states[0].ledger)
    requires states[0] == Open(states[0].ledger)
    requires forall i :: 0 <= i < |steps| ==> steps[i].Add? || steps[i].Submit?
    requires k < |states|
    ensures Inv(states[k]) && Sole(states[k])
  {
    hide Inv, Sole, Next, Allowed, Open;
    if k == 0 {
      OpenInv(states[0].ledger);
    } else {
      SoleRun(states, steps, k - 1);
      assert states[k - 1 + 1] == Next(states[k - 1], steps[k - 1]);
      SoleKeeps(states[k - 1], steps[k - 1]);
    }
  }

  /** A store that has not reloaded after others wrote two blocks takes the second of them
      as its next block. */
  lemma MisplacedBlock(b0: Bytes, b1: Bytes, b2: Bytes)
    ensures var ledger := [Block(0, b0)];
      var s := Next(Next(Open(ledger), Persisted(Block(1, b1))), Persisted(Block(2, b2)));
      var t := AddBlock(s, Block(2, b2), Answer(false, true, true));
      Inv(s) && !AddOk(s, Block(2, b2)) && GetBlock(t, 1) == Some(Block(2, b2))
  {
    var ledger := [Block(0, b0)];
    OpenInv(ledger);
    var r := Next(Open(ledger), Persisted(Block(1, b1)));
    StepKeeps(Open(ledger), Persisted(Block(1, b1)));
    StepKeeps(r, Persisted(Block(2, b2)));
    var s := Next(r, Persisted(Block(2, b2)));
    assert SubmitBlock(s, 0, Answer(false, true, true)) == s;
  }

  // ---------- what the operations do ----------

  /** The block waits for its submission. */
  predicate Waits(s: State, n: nat)
  {
    n > 0 && n in s.pending && !s.pending[n].hasSubmitted
  }

  /** The ledger takes it, or has it from elsewhere. */
  predicate Takes(s: State, n: nat, a: Answer)
  {
    Waits(s, n) && !a.closing && (n < |s.ledger| || a.accepts)
  }

  /** The ledger grows by its next block if it accepts it, is content with what it has, and refuses
      anything else. */
  lemma LedgerTells(ledger: seq<Block>, b: Block, a: Answer)
    ensures var r := LedgerSubmit(ledger, b, a);
      && (r == Some(ledger + [b]) <==> !a.closing && b.height == |ledger| && a.accepts)
      && (r == Some(ledger) <==> !a.closing && b.height < |ledger|)
      && (r.None? <==> a.closing || b.height > |ledger| || (b.height == |ledger| && !a.accepts))
  {
    assert |ledger + [b]| == |ledger| + 1;
  }

  /** A submission that the ledger takes puts the waiting block there, as it was added, and marks it.
      Its predecessor is forgotten. Any other submission changes nothing. */
  lemma SubmitTells(s: State, n: nat, a: Answer)
    requires Inv(s)
    ensures var t := SubmitBlock(s, n, a);
      if Takes(s, n, a) then
        && n < |t.ledger| && n < |s.chain| && t.ledger[n] == s.chain[n] == s.pending[n].block
        && s.ledger <= t.ledger && |t.ledger| == (if n < |s.ledger| then |s.ledger| else n + 1)
        && t.submits == s.submits + [n] && t.pending.Keys == s.pending.Keys - {n - 1}
        && t.pending[n] == s.pending[n].(hasSubmitted := true)
        && (forall m :: m in t.pending && m != n ==> t.pending[m] == s.pending[m])
        && t == s.(ledger := t.ledger, submits := t.submits, pending := t.pending)
      else t == s
  {
    if n in s.pending {
      assert PendingOk(s, n);
      HeightOf(s.chain, n);
    }
  }

  /** A block above the chain: first the last block is submitted. Then, if the ledger has all before
      it and it executes, it is added behind the last one, with what it was executed on. */
  lemma AddTells(s: State, b: Block, a: Answer)
    requires Inv(s)
    ensures var t, u := AddBlock(s, b, a), SubmitBlock(s, s.chained, a);
      if b.height <= s.chained then t == s
      else if b.height > |u.ledger| || !a.executes then t == u
      else
        && t.chain == s.chain + [b] && t.chained == s.chained + 1 && t.ledger == u.ledger && t.submits == u.submits
        && t.pending == u.pending[s.chained + 1 := PendingBlock(b, ExecResult(u.ledger[..b.height]), false)]
  {
    SubmitKeeps(s, s.chained, a);
    hide SubmitBlock, Inv;
  }

  /** What waits is submitted before a block is added, so the ledger has all before it. */
  lemma LastInLedger(s: State, a: Answer)
    requires Inv(s) && !a.closing && a.accepts
    ensures s.chained < |SubmitBlock(s, s.chained, a).ledger|
  {
    SubmitTells(s, s.chained, a);
    if s.chained in s.pending { assert PendingOk(s, s.chained); }
  }

  /** A block in order is added wherever the ledger takes what waits and executes the new block, and
      is in the ledger after the next submission that it takes. */
  lemma AddThenSubmit(s: State, b: Block, a: Answer, c: Answer)
    requires Inv(s) && AddOk(s, b) && b.height == s.chained + 1 && !a.closing && a.accepts && a.executes
    requires !c.closing && c.accepts
    ensures var t := SubmitBlock(AddBlock(s, b, a), b.height, c);
      b.height < |t.ledger| && t.ledger[b.height] == b
  {
    AddKeeps(s, b, a);
    AddTells(s, b, a);
    SubmitTells(s, s.chained, a);
    LastInLedger(s, a);
    SubmitTells(AddBlock(s, b, a), b.height, c);
  }

  /** A reload catches up with the ledger and forgets what that has; otherwise nothing changes. */
  lemma ReloadTells(s: State)
    requires Inv(s)
    ensures var t, height := Reload(s), |s.ledger| - 1;
      if height <= s.chained then t == s
      else
        && t.chained == height && t.chain == s.ledger == t.ledger && t.submits == s.submits
        && t.pending.Keys == (set n | n in s.pending && n > height)
        && (forall n :: n in t.pending ==> t.pending[n] == s.pending[n])
  {
  }
}
