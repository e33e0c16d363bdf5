/** `ChainStore` of consensus/vbft/chain_store.go on mutable fields over a ledger object,
    each method tied to the step of module ChainStore that it performs. */
module BlockStore {
  import opened Common
  import opened ChainStore

  class Ledger {
    var blocks: seq<Block>

    constructor (blocks: seq<Block>)
      ensures this.blocks == blocks
    {
      this.blocks := blocks;
    }

    method SubmitBlock(b: Block, a: Answer) returns (ok: bool)
      modifies this
      ensures var r := LedgerSubmit(old(blocks), b, a); ok == r.Some? && blocks == (if ok then r.value else old(blocks))
    {
      if a.closing {
        return false;
      }
      if b.height < |blocks| {
        return true;
      }
      if b.height != |blocks| || !a.accepts {
        return false;
      }
      blocks := blocks + [b];
      ok := true;
    }
  }

  /** The pending blocks above a height. */
  method Above(pending: map<nat, PendingBlock>, height: nat) returns (kept: map<nat, PendingBlock>)
    ensures kept == map n | n in pending && n > height :: pending[n]
  {
    var todo := pending.Keys;
    kept := map[];
    while todo != {}
      invariant todo <= pending.Keys
      invariant kept == map n | n in pending.Keys - todo && n > height :: pending[n]
      decreases |todo|
    {
      var n :| n in todo;
      if n > height {
        kept := kept[n := pending[n]];
      }
      todo := todo - {n};
    }
  }

  class Store {
    const db: Ledger
    var chainedBlockNum: nat
    var pendingBlocks: map<nat, PendingBlock>
    ghost var chain: seq<Block>
    ghost var submits: seq<nat>

    ghost function View(): State
      reads this, db
    {
      State(chainedBlockNum, pendingBlocks, db.blocks, chain, submits)
    }

    constructor (db: Ledger)
      requires db.blocks != [] && Heights(db.blocks)
      ensures this.db == db && View() == Open(db.blocks) && Inv(View())
    {
      this.db := db;
      var n := |db.blocks| - 1;
      chainedBlockNum := n;
      pendingBlocks := map[n := PendingBlock(db.blocks[n], ExecResult(db.blocks[..n]), true)];
      chain, submits := db.blocks, [];
      new;
      OpenInv(db.blocks);
    }

    method SubmitBlock(n: nat, a: Answer) returns (ok: bool)
      requires Inv(View())
      modifies this, db
      ensures View() == ChainStore.SubmitBlock(old(View()), n, a) && Inv(View())
      ensures !ok <==> (
        && n > 0 && n in old(pendingBlocks) && !old(pendingBlocks)[n].hasSubmitted
        && LedgerSubmit(old(db.blocks), old(pendingBlocks)[n].block, a).None?)
    {
      hide Inv, LedgerSubmit;
      SubmitKeeps(View(), n, a);
      if n == 0 {
        return true;
      }
      if n in pendingBlocks && !pendingBlocks[n].hasSubmitted {
        var p := pendingBlocks[n];
        ok := db.SubmitBlock(p.block, a);
        if !ok {
          return;
        }
        if n - 1 in pendingBlocks {
          pendingBlocks := pendingBlocks - {n - 1};
        }
        assert pendingBlocks == old(pendingBlocks) - {n - 1};
        pendingBlocks, submits := pendingBlocks[n := p.(hasSubmitted := true)], submits + [n];
      }
      ok := true;
    }

    /** Takes any block. What was added reads back afterwards, and the store is intact,
        exactly when the ledger was not ahead or held that block, or the block did not
        execute. */
    method AddBlock(b: Block, a: Answer) returns (ok: bool)
      requires Inv(View())
      modifies this, db
      ensures View() == ChainStore.AddBlock(old(View()), b, a)
      ensures Inv(View()) <==> AddOk(old(View()), b) || !ok
      ensures AddOk(old(View()), b) ==> old(chain) <= chain
      ensures b.height <= old(chainedBlockNum) ==> ok
    {
      hide Inv, ChainStore.SubmitBlock;
      AddExact(View(), b, a);
      if AddOk(View(), b) { AddKeeps(View(), b, a); }
      if b.height <= chainedBlockNum {
        return true;
      }
      var n := chainedBlockNum + 1;
      SubmitKeeps(View(), n - 1, a);
      var submitted := SubmitBlock(n - 1, a);
      if b.height > |db.blocks| || !a.executes {
        return false;
      }
      pendingBlocks := pendingBlocks[n := PendingBlock(b, ExecResult(db.blocks[..b.height]), false)];
      chainedBlockNum, chain := n, chain + [b];
      ok := true;
    }

    method ReloadFromLedger()
      requires Inv(View())
      modifies this
      ensures View() == Reload(old(View())) && Inv(View())
    {
      ReloadKeeps(View());
      var height := |db.blocks| - 1;
      if height > chainedBlockNum {
        chainedBlockNum := height;
        var kept := Above(pendingBlocks, height);
        pendingBlocks, chain := kept, db.blocks;
      }
    }

    /** Reads back what was added, from the pending blocks or from the ledger. */
    method ReadBlock(n: nat) returns (b: Option<Block>)
      requires Inv(View())
      ensures b == ChainStore.GetBlock(View(), n)
      ensures n <= chainedBlockNum ==> n < |chain| && b == Some(chain[n])
    {
      if n <= chainedBlockNum { ReadsBack(View(), n); }
      if n in pendingBlocks {
        return Some(pendingBlocks[n].block);
      }
      if n < |db.blocks| {
        return Some(db.blocks[n]);
      }
      b := None;
    }
  }
}
