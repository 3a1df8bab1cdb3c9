/** The chain itself: the list of blocks, the balance ledger, the current
    difficulty and the undo history of chain states.

    A chain state holds a reference to the live block list, not a copy, and
    `addNewBlock` appends into that same list. Undoing a rejected block
    therefore reinstalls a list that still ends with the rejected block. The
    list is modelled as an object (BlockList) so that this sharing is
    visible. */
module Chain {
  import opened JavaLang
  import opened Config
  import opened Ledger
  import opened Transactions
  import opened Blocks

  /** The `ArrayList<Block>` of the chain: one object, updated in place and
      shared by every state that captured it. */
  class BlockList {
    var blocks: seq<Block>

    constructor ()
      ensures blocks == []
    {
      blocks := [];
    }

    /** `add`: appends at the end. */
    method Add(b: Block)
      modifies this`blocks
      ensures blocks == old(blocks) + [b]
    {
      blocks := blocks + [b];
    }

    /** `clear`: empties the list in place. */
    method Clear()
      modifies this`blocks
      ensures blocks == []
    {
      blocks := [];
    }
  }

  /** `Blockchain.BlockchainState`: a wrapper around a list reference. */
  datatype BlockchainState = BlockchainState(blockchainList: BlockList)

  // ---------------------------------------------------------------------
  // Hash linkage
  // ---------------------------------------------------------------------

  /** Every block names the hash of the block before it. The first block is
      not checked against anything. */
  predicate Linked(bs: seq<Block>)
  {
    forall i :: 1 <= i < |bs| ==> bs[i - 1].hash == bs[i].prevBlockHash
  }

  /** A block naming `prevBlockHash` may follow `bs`: `bs` is empty, or
      `prevBlockHash` is the hash of its last block. */
  predicate LinksTo(bs: seq<Block>, prevBlockHash: string)
  {
    bs == [] || bs[|bs| - 1].hash == prevBlockHash
  }

  /** The predecessor hash a new block gets: `"0"` on an empty chain,
      otherwise the one hash a block must name to link to the chain. */
  function TipHash(bs: seq<Block>): (h: string)
    ensures bs == [] ==> h == "0"
    ensures LinksTo(bs, h)
    ensures forall p: string :: bs != [] && LinksTo(bs, p) ==> p == h
  {
    if |bs| > 0 then bs[|bs| - 1].hash else "0"
  }

  /** Appending keeps the chain linked exactly when the new block links to
      the old tip. */
  lemma LinkedSnoc(bs: seq<Block>, b: Block)
    ensures Linked(bs + [b]) <==> Linked(bs) && LinksTo(bs, b.prevBlockHash)
  {
    var s := bs + [b];
    if Linked(s) {
      forall i | 1 <= i < |bs|
        ensures bs[i - 1].hash == bs[i].prevBlockHash
      {
        assert s[i - 1] == bs[i - 1] && s[i] == bs[i];
      }
      if bs != [] {
        assert s[|bs| - 1] == bs[|bs| - 1] && s[|bs|] == b;
      }
    }
  }

  /** A broken link stays broken whatever is appended after it. */
  lemma UnlinkedStaysUnlinked(bs: seq<Block>, more: seq<Block>)
    requires !Linked(bs)
    ensures !Linked(bs + more)
  {
    var i :| 1 <= i < |bs| && bs[i - 1].hash != bs[i].prevBlockHash;
    assert (bs + more)[i - 1] == bs[i - 1] && (bs + more)[i] == bs[i];
  }

  // ---------------------------------------------------------------------
  // The ledger key of a miner
  // ---------------------------------------------------------------------

  /** `String.format("miner%d", minerId)`. */
  function MinerName(minerId: Int64): string
  {
    "miner" + Decimal(minerId)
  }

  /** Different miners are credited under different names. */
  lemma MinerNameInjective(a: Int64, b: Int64)
    requires MinerName(a) == MinerName(b)
    ensures a == b
  {
    assert Decimal(a) == MinerName(a)[5..];
    assert Decimal(b) == MinerName(b)[5..];
    DecimalInjective(a, b);
  }

  // ---------------------------------------------------------------------
  // The history
  // ---------------------------------------------------------------------

  /** `BlockchainHistory`: a stack of chain states, the top at index 0, and
      the chain whose state it saves and restores. */
  class BlockchainHistory {
    const blockchain: Blockchain
    var history: seq<BlockchainState>

    constructor (blockchain: Blockchain)
      ensures this.blockchain == blockchain && history == []
    {
      this.blockchain := blockchain;
      history := [];
    }

    /** `save`: pushes the chain's current state, which is its current list
        object. */
    method Save()
      modifies this`history
      ensures history == [BlockchainState(blockchain.blockchainList)] + old(history)
    {
      var state := blockchain.GetState();
      history := [state] + history;
    }

    /** `undo`: pops the most recent state and installs it in the chain; on
        an empty history nothing happens. */
    method Undo()
      modifies this`history, blockchain`blockchainList
      ensures old(history) == [] ==>
        history == [] && blockchain.blockchainList == old(blockchain.blockchainList)
      ensures old(history) != [] ==>
        history == old(history)[1..] && blockchain.blockchainList == old(history)[0].blockchainList
    {
      if history != [] {
        var state := history[0];
        history := history[1..];
        blockchain.SetState(state);
      }
    }

    /** `clear`: forgets every saved state; the chain is not touched. */
    method Clear()
      modifies this`history
      ensures history == []
    {
      history := [];
    }
  }

  // ---------------------------------------------------------------------
  // The chain
  // ---------------------------------------------------------------------

  /** `Blockchain`. The ledger is a value updated by reassignment, which is
      what `put` on the map amounts to. The history needs the chain itself,
      so it can only be created once the chain exists: the field is null
      for that moment of construction and is never reassigned. */
  class Blockchain {
    var blockchainHistory: BlockchainHistory?
    var ledger: Balances
    var blockchainList: BlockList
    var qtyOfZeros: int

    /** The history belongs to this chain. */
    predicate Valid()
      reads this, blockchainHistory
    {
      blockchainHistory != null && blockchainHistory.blockchain == this
    }

    constructor ()
      ensures Valid()
      ensures fresh(blockchainList) && blockchainList.blocks == []
      ensures fresh(blockchainHistory) && blockchainHistory != null && blockchainHistory.history == []
      ensures ledger == map[] && qtyOfZeros == 0
    {
      blockchainHistory := null;
      ledger := map[];
      blockchainList := new BlockList();
      qtyOfZeros := 0;
      new;
      blockchainHistory := new BlockchainHistory(this);
    }

    /** `getBlockchainSize`. */
    function GetBlockchainSize(): nat
      reads this, blockchainList
    {
      |blockchainList.blocks|
    }

    /** `setState`: installs the state's list object as the chain's list. */
    method SetState(state: BlockchainState)
      modifies this`blockchainList
      ensures blockchainList == state.blockchainList
    {
      blockchainList := state.blockchainList;
    }

    /** `getState`: the current list object itself, not a copy. */
    function GetState(): BlockchainState
      reads this
    {
      BlockchainState(blockchainList)
    }

    /** `isBlockchainValid`: walks the adjacent pairs and stops at the first
        broken link. */
    method IsBlockchainValid() returns (valid: bool)
      ensures valid <==> Linked(blockchainList.blocks)
    {
      var list := blockchainList.blocks;
      if |list| < 2 {
        return true;
      }
      valid := true;
      var i := 1;
      while i < |list|
        invariant 1 <= i <= |list|
        invariant valid
        invariant forall j :: 1 <= j < i ==> list[j - 1].hash == list[j].prevBlockHash
      {
        if list[i - 1].hash != list[i].prevBlockHash {
          valid := false;
          break;
        }
        i := i + 1;
      }
    }

    /** `generateNewBlock`: the next block links to the tip (or to `"0"`),
        takes the next `int` id and starts at the chain's current
        difficulty. The clock reading, thread id, digest function, random
        draws and search time are passed in. */
    method GenerateNewBlock(data: string, timeStamp: Int64, threadId: Int64,
                            sha: string -> Digest, draws: nat -> Int32, elapsed: int)
      returns (b: Block)
      requires 0 <= qtyOfZeros <= 62
      requires Puzzle(Header(Wrap32(|blockchainList.blocks| + 1), timeStamp, TipHash(blockchainList.blocks)),
                      0, sha, draws).Solvable(qtyOfZeros)
      ensures b.prevBlockHash == TipHash(blockchainList.blocks)
      ensures b.id == Wrap32(|blockchainList.blocks| + 1)
      ensures |blockchainList.blocks| < 0x7fff_ffff ==> b.id == |blockchainList.blocks| + 1
      ensures b.startQtyOfZeros == qtyOfZeros
      ensures b.data == Strip(data) && b.minerId == threadId && b.timeStamp == timeStamp
      ensures StartsWith(b.hash, Zeros(qtyOfZeros)) && |b.hash| == 64
      ensures b.endQtyOfZeros == NextDifficulty(elapsed, qtyOfZeros)
      ensures LinksTo(blockchainList.blocks, b.prevBlockHash)
    {
      var prevBlockHash := if |blockchainList.blocks| > 0 then blockchainList.blocks[|blockchainList.blocks| - 1].hash else "0";
      var id := Wrap32(|blockchainList.blocks| + 1);
      b := new Block(data, prevBlockHash, id, qtyOfZeros, timeStamp, threadId, sha, draws, elapsed);
    }

    /** `addNewBlock`: save the state, append, adopt the block's outgoing
        difficulty, then either undo (on a broken link) or pay the miner.
        The undo reinstalls the same list object, so the block stays in the
        list either way, and the difficulty stays adopted. */
    method AddNewBlock(newBlock: Block) returns (ok: bool)
      requires Valid()
      modifies blockchainHistory`history, this`blockchainList, this`qtyOfZeros, this`ledger
      modifies blockchainList`blocks
      ensures Valid()
      ensures blockchainList == old(blockchainList)
      ensures blockchainList.blocks == old(blockchainList.blocks) + [newBlock]
      ensures qtyOfZeros == newBlock.endQtyOfZeros
      ensures ok <==> Linked(old(blockchainList.blocks) + [newBlock])
      ensures ok ==> ledger == Credit(old(ledger), MinerName(newBlock.minerId), BLOCK_REWARD)
      ensures ok ==> blockchainHistory.history == [BlockchainState(blockchainList)] + old(blockchainHistory.history)
      ensures !ok ==> ledger == old(ledger) && blockchainHistory.history == old(blockchainHistory.history)
    {
      blockchainHistory.Save();
      blockchainList.Add(newBlock);
      qtyOfZeros := newBlock.endQtyOfZeros;
      var valid := IsBlockchainValid();
      if !valid {
        blockchainHistory.Undo();
        return false;
      }
      AddToLedger(newBlock.minerId);
      return true;
    }

    /** `addToLedger`: the miner's entry rises by the block reward. */
    method AddToLedger(minerId: Int64)
      modifies this`ledger
      ensures ledger == Credit(old(ledger), MinerName(minerId), BLOCK_REWARD)
    {
      var miner := MinerName(minerId);
      ledger := ledger[miner := Wrap32(Balance(ledger, miner) + BLOCK_REWARD)];
    }

    /** `addTransactionToLedger`: debit the sender, then credit the
        receiver. The sender's entry is unboxed without a default, so it
        must exist. */
    method AddTransactionToLedger(transaction: SignedTransaction)
      requires transaction.sender in ledger
      modifies this`ledger
      ensures ledger == Transfer(old(ledger), transaction.sender, transaction.amount, transaction.receiver)
    {
      var sender := transaction.sender;
      ledger := ledger[sender := Wrap32(ledger[sender] - transaction.amount)];
      var receiver := transaction.receiver;
      ledger := ledger[receiver := Wrap32(Balance(ledger, receiver) + transaction.amount)];
    }

    /** `isTransactionValid`: the sender can cover the amount, an absent
        sender holding 0. The signature is not checked. For a sender with a
        non-negative balance paying someone else a non-negative amount, the
        check passes exactly when the transfer would leave the sender with a
        non-negative balance. */
    function IsTransactionValid(transaction: SignedTransaction): (valid: bool)
      reads this
      ensures transaction.sender !in ledger ==> (valid <==> transaction.amount <= 0)
      ensures (&& transaction.sender in ledger && ledger[transaction.sender] >= 0
               && transaction.amount >= 0 && transaction.sender != transaction.receiver)
        ==> (valid <==> Transfer(ledger, transaction.sender, transaction.amount, transaction.receiver)[transaction.sender] >= 0)
    {
      var sender, amount, receiver := transaction.sender, transaction.amount, transaction.receiver;
      if sender in ledger then
        TransferEffect(ledger, sender, amount, receiver);
        CanAfford(ledger, sender, amount)
      else
        CanAfford(ledger, sender, amount)
    }

    /** `clear`: empties the list (in place), the history and the ledger;
        the difficulty is kept. */
    method Clear()
      requires Valid()
      modifies blockchainList`blocks, blockchainHistory`history, this`ledger
      ensures Valid()
      ensures blockchainList.blocks == [] && blockchainHistory.history == [] && ledger == map[]
      ensures qtyOfZeros == old(qtyOfZeros) && blockchainList == old(blockchainList)
    {
      blockchainList.Clear();
      blockchainHistory.Clear();
      ledger := map[];
    }
  }

  /** Once a block with a broken link has been appended, it stays in the
      list after the undo, and every later `addNewBlock` fails. */
  lemma RejectionIsPermanent(bs: seq<Block>, rejected: Block, later: seq<Block>, b: Block)
    requires !Linked(bs + [rejected])
    ensures !Linked(bs + [rejected] + later + [b])
  {
    UnlinkedStaysUnlinked(bs + [rejected], later + [b]);
    assert bs + [rejected] + later + [b] == (bs + [rejected]) + (later + [b]);
  }

  /** A block mined on the current tip is accepted exactly when the chain
      was linked before. */
  lemma MinedBlockAccepted(bs: seq<Block>, b: Block)
    requires b.prevBlockHash == TipHash(bs)
    ensures Linked(bs + [b]) <==> Linked(bs)
  {
    LinkedSnoc(bs, b);
  }
}
