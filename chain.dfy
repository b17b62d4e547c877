/** The blockchain: the list of accepted blocks and the set of hashes of
    unspent outputs. A block is validated against the chain's head, its
    transactions are checked against the unspent set, and only then is the
    set updated and the block appended. */
module Chain {
  import opened Bytes
  import opened Transactions
  import opened Blocks
  import B = Balances

  /** Why a block was refused. */
  datatype ValidationError =
    | IndexMismatch
    | HashMismatch
    | DifficultyMismatch
    | HashChainViolation
    | TimestampViolation
    | InvalidInput
    | InvalidCoinbaseTransaction
    | InsufficientInputValue

  datatype Result<T> = Ok(value: T) | Err(error: ValidationError)

  datatype Option<T> = None | Some(value: T)

  /** `last_block_hash`: the hash stored in the last block, or the all-zero
      hash when there is no block. */
  function LastHash(blocks: seq<BlockData>): Hash
  {
    if blocks == [] then ZeroHash() else blocks[|blocks| - 1].hash
  }

  /** `validate_block`: the header checks, in the source's order, stopping
      at the first that fails. A block passes exactly when its index is the
      chain's length, its stored hash meets its own difficulty and is its
      recomputed hash, it names the chain's last hash as its predecessor
      and it is not older than the last block. */
  function Validate(H: Hasher, blocks: seq<BlockData>, b: BlockData): (r: Result<()>)
    ensures r.Ok? <==>
      b.index == |blocks| && b.CheckDifficulty(b.hash) && b.hash == BlockHash(H, b)
      && b.prevBlockHash == LastHash(blocks)
      && (blocks != [] ==> !b.timestamp.Before(blocks[|blocks| - 1].timestamp))
  {
    var index := |blocks|;
    if b.index != index then Err(IndexMismatch)
    else if !b.CheckDifficulty(b.hash) then Err(DifficultyMismatch)
    else if b.hash != BlockHash(H, b) then Err(HashMismatch)
    else if index == 0 then
      if b.prevBlockHash != ZeroHash() then Err(HashChainViolation) else Ok(())
    else if b.prevBlockHash != blocks[index - 1].hash then Err(HashChainViolation)
    else if b.timestamp.Before(blocks[index - 1].timestamp) then Err(TimestampViolation)
    else Ok(())
  }

  /** The error `validate_block` reports is that of the first failing
      check, in the order index, difficulty, hash, predecessor, timestamp. */
  lemma ValidateReportsFirstFailure(H: Hasher, blocks: seq<BlockData>, b: BlockData)
    ensures Validate(H, blocks, b) == Err(IndexMismatch) <==> b.index != |blocks|
    ensures Validate(H, blocks, b) == Err(DifficultyMismatch) <==>
      b.index == |blocks| && !b.CheckDifficulty(b.hash)
    ensures Validate(H, blocks, b) == Err(HashMismatch) <==>
      b.index == |blocks| && b.CheckDifficulty(b.hash) && b.hash != BlockHash(H, b)
    ensures Validate(H, blocks, b) == Err(HashChainViolation) <==>
      b.index == |blocks| && b.CheckDifficulty(b.hash) && b.hash == BlockHash(H, b)
      && b.prevBlockHash != LastHash(blocks)
    ensures Validate(H, blocks, b) == Err(TimestampViolation) <==>
      b.index == |blocks| && b.CheckDifficulty(b.hash) && b.hash == BlockHash(H, b)
      && b.prevBlockHash == LastHash(blocks)
      && blocks != [] && b.timestamp.Before(blocks[|blocks| - 1].timestamp)
    ensures Validate(H, blocks, b).Err? ==>
      Validate(H, blocks, b).error in {IndexMismatch, DifficultyMismatch, HashMismatch, HashChainViolation, TimestampViolation}
  {
  }

  /** What the walk over a block's non-coinbase transactions accumulates:
      the input hashes spent, the output hashes created, and the fees. */
  datatype Tally = Tally(spent: set<Hash>, created: set<Hash>, totalFee: nat)

  /** The walk over the non-coinbase transactions, in order, stopping at
      the first that spends a hash that is not unspent or that an earlier
      transaction of the block already spent, or that creates value. */
  function Scan(H: Hasher, unspent: set<Hash>, txs: seq<Transaction>, acc: Tally): Result<Tally>
  {
    if txs == [] then Ok(acc)
    else
      var t := txs[0];
      var ins := InputHashes(H, t);
      if ins - unspent != {} || ins * acc.spent != {} then Err(InvalidInput)
      else if OutputValue(t) > InputValue(t) then Err(InsufficientInputValue)
      else
        Scan(H, unspent, txs[1..],
             Tally(acc.spent + ins, acc.created + OutputHashes(H, t),
                   acc.totalFee + (InputValue(t) - OutputValue(t))))
  }

  /** The specification of `update_with_block`: the unspent set after the
      block, or the error that refuses it. A block without transactions
      passes once its header is valid and leaves the set as it was. */
  function Update(H: Hasher, blocks: seq<BlockData>, unspent: set<Hash>, b: BlockData): Result<set<Hash>>
  {
    match Validate(H, blocks, b)
    case Err(e) => Err(e)
    case Ok(_) =>
      if b.transactions == [] then Ok(unspent)
      else
        var coinbase := b.transactions[0];
        if !IsCoinbase(coinbase) then Err(InvalidCoinbaseTransaction)
        else
          UpdateAfterScan(H, unspent, b, Scan(H, unspent, b.transactions[1..], Tally({}, {}, 0)))
  }

  /** `Update` once the header and the coinbase have been checked: what
      the walk over the other transactions decides. */
  function UpdateAfterScan(H: Hasher, unspent: set<Hash>, b: BlockData, scan: Result<Tally>): Result<set<Hash>>
    requires b.transactions != []
  {
    match scan
    case Err(e) => Err(e)
    case Ok(tally) =>
      var coinbase := b.transactions[0];
      if b.index != 0 && OutputValue(coinbase) != tally.totalFee + REWARD then
        Err(InvalidCoinbaseTransaction)
      else
        Ok((unspent - tally.spent) + (tally.created + OutputHashes(H, coinbase)))
  }

  /** Feeding the blocks one by one to an empty chain: the unspent set
      they leave, or None if some block is refused. */
  function Replay(H: Hasher, bs: seq<BlockData>): Option<set<Hash>>
  {
    if bs == [] then Some({})
    else
      match Replay(H, bs[..|bs| - 1])
      case None => None
      case Some(unspent) =>
        match Update(H, bs[..|bs| - 1], unspent, bs[|bs| - 1])
        case Err(_) => None
        case Ok(next) => Some(next)
  }

  /** The specification of `balance`: the balances of every block's
      transactions, combined in block order. */
  function OfChain(bs: seq<BlockData>): B.Balance
  {
    if bs == [] then map[]
    else B.Combined(OfChain(bs[..|bs| - 1]), B.OfTransactions(bs[|bs| - 1].transactions))
  }

  /** The sum of owner `k`'s nets over every transaction of a chain. */
  function ChainNet(bs: seq<BlockData>, k: Name): int
  {
    if bs == [] then 0 else ChainNet(bs[..|bs| - 1], k) + B.NetOf(bs[|bs| - 1].transactions, k)
  }

  /** `balance`: an owner appears exactly when some transaction of some
      block names it, with the sum over the whole chain of what it
      receives minus what it spends. */
  lemma {:induction false} OfChainAt(bs: seq<BlockData>, k: Name)
    ensures k in OfChain(bs) <==>
      exists j, i :: 0 <= j < |bs| && 0 <= i < |bs[j].transactions| && B.Names(bs[j].transactions[i], k)
    ensures B.Get(OfChain(bs), k) == ChainNet(bs, k)
  {
    if bs != [] {
      var init, last := bs[..|bs| - 1], bs[|bs| - 1];
      OfChainAt(init, k);
      B.OfTransactionsAt(last.transactions, k);
      assert forall j :: 0 <= j < |init| ==> init[j] == bs[j];
      if exists j, i :: 0 <= j < |bs| && 0 <= i < |bs[j].transactions| && B.Names(bs[j].transactions[i], k) {
        var j, i :| 0 <= j < |bs| && 0 <= i < |bs[j].transactions| && B.Names(bs[j].transactions[i], k);
        if j < |init| {
          assert B.Names(init[j].transactions[i], k);
        }
      }
    }
  }

  /** One step of the walk, at position `i` of the transactions. */
  lemma ScanStep(H: Hasher, unspent: set<Hash>, txs: seq<Transaction>, i: nat, acc: Tally)
    requires i < |txs|
    ensures var ins := InputHashes(H, txs[i]);
            ins - unspent != {} || ins * acc.spent != {} ==>
            Scan(H, unspent, txs[i..], acc) == Err(InvalidInput)
    ensures var ins := InputHashes(H, txs[i]);
            ins - unspent == {} && ins * acc.spent == {} && OutputValue(txs[i]) > InputValue(txs[i]) ==>
            Scan(H, unspent, txs[i..], acc) == Err(InsufficientInputValue)
    ensures var t, ins := txs[i], InputHashes(H, txs[i]);
            ins - unspent == {} && ins * acc.spent == {} && OutputValue(t) <= InputValue(t) ==>
            Scan(H, unspent, txs[i..], acc)
            == Scan(H, unspent, txs[i + 1..],
                    Tally(acc.spent + ins, acc.created + OutputHashes(H, t),
                          acc.totalFee + (InputValue(t) - OutputValue(t))))
  {
    assert txs[i..][0] == txs[i] && txs[i..][1..] == txs[i + 1..];
  }

  /** Replaying one more block continues from the unspent set the others
      left. */
  lemma ReplayAppend(H: Hasher, bs: seq<BlockData>, unspent: set<Hash>, b: BlockData)
    requires Replay(H, bs) == Some(unspent)
    ensures Replay(H, bs + [b]) == match Update(H, bs, unspent, b)
                                   case Err(_) => None
                                   case Ok(next) => Some(next)
  {
    assert (bs + [b])[..|bs|] == bs;
  }

  /** The loop of `update_with_block` over the transactions after the
      coinbase: refuse a spend of a hash that is not unspent or that an
      earlier transaction of the block spent, refuse a transaction that
      creates value, and otherwise collect the spent and created hashes and
      add up the fees. */
  method ScanTransactions(H: Hasher, unspent: set<Hash>, txs: seq<Transaction>) returns (r: Result<Tally>)
    ensures r == Scan(H, unspent, txs, Tally({}, {}, 0))
  {
    var blockSpent: set<Hash> := {};
    var blockCreated: set<Hash> := {};
    var totalFee: nat := 0;
    for i := 0 to |txs|
      invariant Scan(H, unspent, txs, Tally({}, {}, 0))
             == Scan(H, unspent, txs[i..], Tally(blockSpent, blockCreated, totalFee))
    {
      var t := txs[i];
      ScanStep(H, unspent, txs, i, Tally(blockSpent, blockCreated, totalFee));
      var inputHashes := InputHashes(H, t);
      if inputHashes - unspent != {} || inputHashes * blockSpent != {} {
        return Err(InvalidInput);
      }
      var inputValue := InputValue(t);
      var outputValue := OutputValue(t);
      if outputValue > inputValue {
        return Err(InsufficientInputValue);
      }
      var fee := inputValue - outputValue;
      totalFee := totalFee + fee;
      blockSpent := blockSpent + inputHashes;
      blockCreated := blockCreated + OutputHashes(H, t);
    }
    assert txs[|txs|..] == [];
    return Ok(Tally(blockSpent, blockCreated, totalFee));
  }

  class Blockchain {
    /** The hasher every block hash and packet hash is computed with. */
    const H: Hasher
    var blocks: seq<BlockData>
    var unspentOutputs: set<Hash>

    /** Every block was accepted against the blocks before it, and the
        unspent set is what accepting them left. */
    ghost predicate Valid()
      reads this
    {
      Replay(H, blocks) == Some(unspentOutputs)
    }

    /** `Blockchain::default`: no blocks, nothing unspent. */
    constructor (H: Hasher)
      ensures this.H == H && blocks == [] && unspentOutputs == {}
      ensures Valid()
    {
      this.H := H;
      blocks := [];
      unspentOutputs := {};
    }

    /** `next_block_index`: the number of blocks, which is the one index
        that validation accepts for the next block. */
    function NextBlockIndex(): (n: nat)
      reads this
      ensures forall b :: Validate(H, blocks, b).Ok? ==> b.index == n
      ensures n == |blocks|
    {
      |blocks|
    }

    /** `last_block_hash`: the hash the next block must name as its
        predecessor, the all-zero hash on an empty chain. */
    function LastBlockHash(): (h: Hash)
      reads this
      ensures forall b :: Validate(H, blocks, b).Ok? ==> b.prevBlockHash == h
      ensures blocks == [] ==> h == ZeroHash()
      ensures blocks != [] ==> h == blocks[|blocks| - 1].hash
    {
      LastHash(blocks)
    }

    /** `update_with_block`: validate the header; then, if there are
        transactions, require the first to be a coinbase and walk the rest,
        refusing a spend of a hash that is not unspent or is already spent
        in this block, and a transaction that creates value; require the
        coinbase to claim exactly the fees plus the reward (except in the
        genesis block); finally remove the spent hashes, add the created
        ones and the coinbase's, and append the block. On an error nothing
        changes. */
    method UpdateWithBlock(block: Block) returns (r: Result<()>)
      requires Valid()
      modifies this
      ensures Valid()
      ensures match Update(H, old(blocks), old(unspentOutputs), block.Value())
              case Ok(next) =>
                r == Ok(()) && blocks == old(blocks) + [block.Value()] && unspentOutputs == next
              case Err(e) =>
                r == Err(e) && blocks == old(blocks) && unspentOutputs == old(unspentOutputs)
    {
      var b := block.Value();
      var unspent := unspentOutputs;
      ghost var spec := Update(H, blocks, unspent, b);
      var v := Validate(H, blocks, b);
      if v.Err? {
        return Err(v.error);
      }
      if |b.transactions| > 0 {
        var coinbase := b.transactions[0];
        var rest := b.transactions[1..];
        if !IsCoinbase(coinbase) {
          return Err(InvalidCoinbaseTransaction);
        }
        var scan := ScanTransactions(H, unspent, rest);
        assert spec == UpdateAfterScan(H, unspent, b, scan);
        if scan.Err? {
          return Err(scan.error);
        }
        var tally := scan.value;
        if b.index != 0 && OutputValue(coinbase) != tally.totalFee + REWARD {
          return Err(InvalidCoinbaseTransaction);
        }
        assert spec == Ok((unspent - tally.spent) + (tally.created + OutputHashes(H, coinbase)));
        unspentOutputs := unspentOutputs - tally.spent;
        unspentOutputs := unspentOutputs + (tally.created + OutputHashes(H, coinbase));
      } else {
        assert spec == Ok(unspent);
      }
      ReplayAppend(H, blocks, unspent, b);
      blocks := blocks + [b];
      return Ok(());
    }

    /** `balance`: combine the balance of every block's transactions, in
        block order. */
    method Balance() returns (bal: B.Balance)
      ensures bal == OfChain(blocks)
    {
      bal := map[];
      for i := 0 to |blocks|
        invariant bal == OfChain(blocks[..i])
      {
        assert blocks[..i + 1][..i] == blocks[..i];
        var tb := B.FromTransactions(blocks[i].transactions);
        bal := B.Combine(bal, tb);
      }
      assert blocks[..|blocks|] == blocks;
    }
  }
}
