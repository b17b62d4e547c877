/** What the acceptance rules of the chain guarantee: an independent,
    declarative statement of when a block is accepted and what it leaves
    unspent, and the consequences for every chain built by accepting blocks
    one at a time: hash linkage, monotone timestamps, no double spend
    without re-creation, and a supply that grows only by the coinbases. */
module ChainTheorems {
  import opened Bytes
  import opened Transactions
  import opened Blocks
  import opened Chain
  import B = Balances

  /** The hashes the inputs of some transactions spend. */
  function SpentBy(H: Hasher, txs: seq<Transaction>): set<Hash>
  {
    if txs == [] then {} else InputHashes(H, txs[0]) + SpentBy(H, txs[1..])
  }

  /** The hashes the outputs of some transactions create. */
  function CreatedBy(H: Hasher, txs: seq<Transaction>): set<Hash>
  {
    if txs == [] then {} else OutputHashes(H, txs[0]) + CreatedBy(H, txs[1..])
  }

  /** The hashes a block's transaction list spends: the inputs of every
      transaction after the coinbase. */
  function SpentIn(H: Hasher, txs: seq<Transaction>): set<Hash>
  {
    if txs == [] then {} else SpentBy(H, txs[1..])
  }

  /** The hashes a block's transaction list creates, the coinbase's
      outputs included. */
  function CreatedIn(H: Hasher, txs: seq<Transaction>): set<Hash>
  {
    if txs == [] then {} else CreatedBy(H, txs[1..]) + OutputHashes(H, txs[0])
  }

  /** The unspent set after a block's transactions are applied. */
  function After(H: Hasher, unspent: set<Hash>, txs: seq<Transaction>): set<Hash>
  {
    (unspent - SpentIn(H, txs)) + CreatedIn(H, txs)
  }

  /** The transactions after the coinbase are acceptable against `unspent`
      when each spends only unspent hashes that are not in `spent`, none
      creates value, and no two of them spend a common hash. */
  predicate Acceptable(H: Hasher, unspent: set<Hash>, spent: set<Hash>, txs: seq<Transaction>)
  {
    (forall i :: 0 <= i < |txs| ==>
       InputHashes(H, txs[i]) <= unspent && InputHashes(H, txs[i]) !! spent && Balanced(txs[i]))
    && (forall i, j :: 0 <= i < j < |txs| ==> InputHashes(H, txs[i]) !! InputHashes(H, txs[j]))
  }

  /** A block is accepted by a chain with blocks `blocks` and unspent set
      `unspent` when its header is valid and, if it has transactions, the
      first is a coinbase, the others are acceptable, and (except in the
      genesis block) the coinbase claims the fees plus the reward. */
  predicate Accepts(H: Hasher, blocks: seq<BlockData>, unspent: set<Hash>, b: BlockData)
  {
    Validate(H, blocks, b).Ok?
    && (b.transactions != [] ==>
          IsCoinbase(b.transactions[0])
          && Acceptable(H, unspent, {}, b.transactions[1..])
          && (b.index != 0 ==> OutputValue(b.transactions[0]) == FeeSum(b.transactions[1..]) + REWARD))
  }

  /** Peeling the first transaction off an acceptable list. */
  lemma AcceptableCons(H: Hasher, unspent: set<Hash>, spent: set<Hash>, txs: seq<Transaction>)
    requires txs != []
    ensures Acceptable(H, unspent, spent, txs) <==>
      var ins := InputHashes(H, txs[0]);
      ins <= unspent && ins !! spent && Balanced(txs[0])
      && Acceptable(H, unspent, spent + ins, txs[1..])
  {
    var ins, rest := InputHashes(H, txs[0]), txs[1..];
    assert forall i :: 0 <= i < |rest| ==> rest[i] == txs[i + 1];
    if Acceptable(H, unspent, spent, txs) {
      forall i | 0 <= i < |rest|
        ensures InputHashes(H, rest[i]) !! spent + ins
      {
        assert InputHashes(H, txs[0]) !! InputHashes(H, txs[i + 1]);
      }
      forall i, j | 0 <= i < j < |rest|
        ensures InputHashes(H, rest[i]) !! InputHashes(H, rest[j])
      {
        assert InputHashes(H, txs[i + 1]) !! InputHashes(H, txs[j + 1]);
      }
    }
    if ins <= unspent && ins !! spent && Balanced(txs[0]) && Acceptable(H, unspent, spent + ins, rest) {
      forall i | 0 <= i < |txs|
        ensures InputHashes(H, txs[i]) <= unspent && InputHashes(H, txs[i]) !! spent && Balanced(txs[i])
      {
        if i > 0 {
          assert InputHashes(H, rest[i - 1]) !! spent + ins;
        }
      }
      forall i, j | 0 <= i < j < |txs|
        ensures InputHashes(H, txs[i]) !! InputHashes(H, txs[j])
      {
        if i == 0 {
          assert InputHashes(H, rest[j - 1]) !! spent + ins;
        } else {
          assert InputHashes(H, rest[i - 1]) !! InputHashes(H, rest[j - 1]);
        }
      }
    }
  }

  lemma NoneOutside<T>(a: set<T>, b: set<T>)
    ensures a <= b <==> a - b == {}
  {
    if a - b == {} {
      forall x | x in a
        ensures x in b
      {
        assert x !in a - b;
      }
    }
  }

  lemma NoneShared<T>(a: set<T>, b: set<T>)
    ensures a !! b <==> a * b == {}
  {
    if a * b == {} {
      forall x | x in a
        ensures x !in b
      {
        assert x !in a * b;
      }
    }
  }

  /** `FeeSum` unfolded from the front. */
  lemma FeeSumCons(txs: seq<Transaction>)
    requires txs != []
    ensures FeeSum(txs) == InputValue(txs[0]) - OutputValue(txs[0]) + FeeSum(txs[1..])
  {
    FeeSumAppend([txs[0]], txs[1..]);
    assert [txs[0]] + txs[1..] == txs;
    assert [txs[0]][..0] == [];
  }

  /** The walk over the transactions after the coinbase succeeds exactly
      when they are acceptable. */
  lemma ScanAccepts(H: Hasher, unspent: set<Hash>, txs: seq<Transaction>, acc: Tally)
    ensures Scan(H, unspent, txs, acc).Ok? <==> Acceptable(H, unspent, acc.spent, txs)
  {
    if Acceptable(H, unspent, acc.spent, txs) {
      AcceptableScans(H, unspent, txs, acc);
    }
    if Scan(H, unspent, txs, acc).Ok? {
      ScansAcceptable(H, unspent, txs, acc);
    }
  }

  lemma {:induction false} AcceptableScans(H: Hasher, unspent: set<Hash>, txs: seq<Transaction>, acc: Tally)
    requires Acceptable(H, unspent, acc.spent, txs)
    ensures Scan(H, unspent, txs, acc).Ok?
    decreases |txs|
  {
    if txs != [] {
      var t, ins := txs[0], InputHashes(H, txs[0]);
      AcceptableCons(H, unspent, acc.spent, txs);
      NoneOutside(ins, unspent);
      NoneShared(ins, acc.spent);
      AcceptableScans(H, unspent, txs[1..], Tally(acc.spent + ins, acc.created + OutputHashes(H, t),
                                                  acc.totalFee + (InputValue(t) - OutputValue(t))));
    }
  }

  lemma {:induction false} ScansAcceptable(H: Hasher, unspent: set<Hash>, txs: seq<Transaction>, acc: Tally)
    requires Scan(H, unspent, txs, acc).Ok?
    ensures Acceptable(H, unspent, acc.spent, txs)
    decreases |txs|
  {
    if txs != [] {
      var t, ins := txs[0], InputHashes(H, txs[0]);
      NoneOutside(ins, unspent);
      NoneShared(ins, acc.spent);
      ScansAcceptable(H, unspent, txs[1..], Tally(acc.spent + ins, acc.created + OutputHashes(H, t),
                                                  acc.totalFee + (InputValue(t) - OutputValue(t))));
      AcceptableCons(H, unspent, acc.spent, txs);
    }
  }

  /** When the walk succeeds it has collected every spent and every
      created hash and the sum of the fees. */
  lemma {:induction false} ScanTally(H: Hasher, unspent: set<Hash>, txs: seq<Transaction>, acc: Tally)
    ensures Scan(H, unspent, txs, acc).Ok? ==>
      Scan(H, unspent, txs, acc).value.spent == acc.spent + SpentBy(H, txs)
      && Scan(H, unspent, txs, acc).value.created == acc.created + CreatedBy(H, txs)
      && Scan(H, unspent, txs, acc).value.totalFee == acc.totalFee + FeeSum(txs)
    decreases |txs|
  {
    if txs != [] {
      var t, ins := txs[0], InputHashes(H, txs[0]);
      if ins - unspent == {} && ins * acc.spent == {} && OutputValue(t) <= InputValue(t) {
        var next := Tally(acc.spent + ins, acc.created + OutputHashes(H, t),
                          acc.totalFee + (InputValue(t) - OutputValue(t)));
        ScanTally(H, unspent, txs[1..], next);
        FeeSumCons(txs);
      }
    }
  }

  /** The walk fails only with InvalidInput or InsufficientInputValue. */
  lemma {:induction false} ScanErrors(H: Hasher, unspent: set<Hash>, txs: seq<Transaction>, acc: Tally)
    ensures Scan(H, unspent, txs, acc).Err? ==>
      Scan(H, unspent, txs, acc).error == InvalidInput || Scan(H, unspent, txs, acc).error == InsufficientInputValue
    decreases |txs|
  {
    if txs != [] {
      var t, ins := txs[0], InputHashes(H, txs[0]);
      if ins - unspent == {} && ins * acc.spent == {} && OutputValue(t) <= InputValue(t) {
        ScanErrors(H, unspent, txs[1..], Tally(acc.spent + ins, acc.created + OutputHashes(H, t),
                                               acc.totalFee + (InputValue(t) - OutputValue(t))));
      }
    }
  }

  /** `update_with_block` accepts a block exactly when `Accepts` holds, and
      then leaves the unspent set less the spent hashes plus the created
      ones; a block without transactions leaves it as it was. A header
      error is reported as is, and a first transaction with inputs is an
      InvalidCoinbaseTransaction. */
  lemma UpdateOutcome(H: Hasher, blocks: seq<BlockData>, unspent: set<Hash>, b: BlockData)
    ensures Update(H, blocks, unspent, b).Ok? <==> Accepts(H, blocks, unspent, b)
    ensures Update(H, blocks, unspent, b).Ok? ==>
      Update(H, blocks, unspent, b).value == After(H, unspent, b.transactions)
    ensures b.transactions == [] ==> After(H, unspent, b.transactions) == unspent
    ensures Validate(H, blocks, b).Err? ==> Update(H, blocks, unspent, b) == Err(Validate(H, blocks, b).error)
    ensures Validate(H, blocks, b).Ok? && b.transactions != [] && !IsCoinbase(b.transactions[0]) ==>
      Update(H, blocks, unspent, b) == Err(InvalidCoinbaseTransaction)
  {
    if b.transactions != [] {
      ScanAccepts(H, unspent, b.transactions[1..], Tally({}, {}, 0));
      ScanTally(H, unspent, b.transactions[1..], Tally({}, {}, 0));
    }
  }

  /** The walk stops at the first transaction that is not acceptable after
      the ones before it: InvalidInput when it spends a hash that is not
      unspent or that an earlier transaction of the block spent, otherwise
      InsufficientInputValue. */
  lemma {:induction false} ScanFailsAt(H: Hasher, unspent: set<Hash>, txs: seq<Transaction>, acc: Tally, i: nat)
    requires i < |txs| && Acceptable(H, unspent, acc.spent, txs[..i])
    requires var ins := InputHashes(H, txs[i]);
      !(ins <= unspent && ins !! acc.spent + SpentBy(H, txs[..i]) && Balanced(txs[i]))
    ensures var ins := InputHashes(H, txs[i]);
      Scan(H, unspent, txs, acc)
      == Err(if ins <= unspent && ins !! acc.spent + SpentBy(H, txs[..i]) then InsufficientInputValue else InvalidInput)
    decreases i
  {
    var t, ins := txs[0], InputHashes(H, txs[0]);
    NoneOutside(ins, unspent);
    if i == 0 {
      assert txs[..0] == [];
      NoneShared(ins, acc.spent);
    } else {
      var pre := txs[..i];
      assert pre[0] == t && pre[1..] == txs[1..][..i - 1];
      AcceptableCons(H, unspent, acc.spent, pre);
      NoneShared(ins, acc.spent);
      assert SpentBy(H, pre) == ins + SpentBy(H, txs[1..][..i - 1]);
      assert txs[1..][i - 1] == txs[i];
      ScanFailsAt(H, unspent, txs[1..],
                  Tally(acc.spent + ins, acc.created + OutputHashes(H, t),
                        acc.totalFee + (InputValue(t) - OutputValue(t))), i - 1);
    }
  }

  /** A block whose transaction `i + 1` (after the coinbase) is the first
      that is not acceptable is refused with that transaction's error:
      InvalidInput for a spend of a hash that is not unspent or that an
      earlier transaction of the block spent, otherwise
      InsufficientInputValue. */
  lemma TransactionRejected(H: Hasher, blocks: seq<BlockData>, unspent: set<Hash>, b: BlockData, i: nat)
    requires Validate(H, blocks, b).Ok? && b.transactions != [] && IsCoinbase(b.transactions[0])
    requires i + 1 < |b.transactions| && Acceptable(H, unspent, {}, b.transactions[1..][..i])
    requires var t, before := b.transactions[i + 1], SpentBy(H, b.transactions[1..][..i]);
      !(InputHashes(H, t) <= unspent && InputHashes(H, t) !! before && Balanced(t))
    ensures var t, before := b.transactions[i + 1], SpentBy(H, b.transactions[1..][..i]);
      Update(H, blocks, unspent, b)
      == Err(if InputHashes(H, t) <= unspent && InputHashes(H, t) !! before then InsufficientInputValue else InvalidInput)
  {
    var rest := b.transactions[1..];
    assert rest[i] == b.transactions[i + 1];
    assert {} + SpentBy(H, rest[..i]) == SpentBy(H, rest[..i]);
    ScanFailsAt(H, unspent, rest, Tally({}, {}, 0), i);
  }

  /** A block whose other transactions are acceptable but whose coinbase
      does not claim exactly the fees plus the reward is refused with
      InvalidCoinbaseTransaction, unless it is the genesis block. */
  lemma RewardMismatchRejected(H: Hasher, blocks: seq<BlockData>, unspent: set<Hash>, b: BlockData)
    requires Validate(H, blocks, b).Ok? && b.transactions != [] && IsCoinbase(b.transactions[0])
    requires Acceptable(H, unspent, {}, b.transactions[1..]) && b.index != 0
    requires OutputValue(b.transactions[0]) != FeeSum(b.transactions[1..]) + REWARD
    ensures Update(H, blocks, unspent, b) == Err(InvalidCoinbaseTransaction)
  {
    ScanAccepts(H, unspent, b.transactions[1..], Tally({}, {}, 0));
    ScanTally(H, unspent, b.transactions[1..], Tally({}, {}, 0));
  }

  /** Every prefix of an accepted chain is an accepted chain. */
  lemma {:induction false} ReplayPrefix(H: Hasher, bs: seq<BlockData>, k: nat)
    requires Replay(H, bs).Some? && k <= |bs|
    ensures Replay(H, bs[..k]).Some?
    decreases |bs| - k
  {
    if k < |bs| {
      ReplayPrefix(H, bs[..|bs| - 1], k);
      assert bs[..|bs| - 1][..k] == bs[..k];
    } else {
      assert bs[..k] == bs;
    }
  }

  /** The unspent set after the first `k` blocks of an accepted chain. */
  function UnspentAfter(H: Hasher, bs: seq<BlockData>, k: nat): set<Hash>
    requires Replay(H, bs).Some? && k <= |bs|
  {
    ReplayPrefix(H, bs, k);
    Replay(H, bs[..k]).value
  }

  /** Block `i` of an accepted chain was accepted against the blocks
      before it and the unspent set they left, and turned that set into
      the next one. */
  lemma BlockStep(H: Hasher, bs: seq<BlockData>, i: nat)
    requires Replay(H, bs).Some? && i < |bs|
    ensures Accepts(H, bs[..i], UnspentAfter(H, bs, i), bs[i])
    ensures UnspentAfter(H, bs, i + 1) == After(H, UnspentAfter(H, bs, i), bs[i].transactions)
  {
    ReplayPrefix(H, bs, i + 1);
    ReplayPrefix(H, bs, i);
    var p := bs[..i + 1];
    assert p[..i] == bs[..i] && p[i] == bs[i];
    UpdateOutcome(H, bs[..i], UnspentAfter(H, bs, i), bs[i]);
  }

  /** In an accepted chain, block `i` has index `i`, stores its own hash,
      which meets its difficulty, names its predecessor's hash (the
      all-zero hash for the genesis block) and is not older than it. */
  lemma ChainLinked(H: Hasher, bs: seq<BlockData>, i: nat)
    requires Replay(H, bs).Some? && i < |bs|
    ensures bs[i].index == i
    ensures bs[i].hash == BlockHash(H, bs[i]) && bs[i].CheckDifficulty(bs[i].hash)
    ensures i == 0 ==> bs[i].prevBlockHash == ZeroHash()
    ensures i > 0 ==> bs[i].prevBlockHash == bs[i - 1].hash
    ensures i > 0 ==> bs[i - 1].timestamp.millis <= bs[i].timestamp.millis
  {
    BlockStep(H, bs, i);
    if i > 0 {
      assert bs[..i][i - 1] == bs[i - 1];
    }
  }

  /** Timestamps never decrease along an accepted chain. */
  lemma {:induction false} TimestampsMonotone(H: Hasher, bs: seq<BlockData>, i: nat, j: nat)
    requires Replay(H, bs).Some? && i <= j < |bs|
    ensures bs[i].timestamp.millis <= bs[j].timestamp.millis
    decreases j
  {
    if i < j {
      TimestampsMonotone(H, bs, i, j - 1);
      ChainLinked(H, bs, j);
    }
  }

  /** What acceptable transactions spend was unspent, and not in `spent`. */
  lemma {:induction false} SpentByAcceptable(H: Hasher, unspent: set<Hash>, spent: set<Hash>, txs: seq<Transaction>)
    requires Acceptable(H, unspent, spent, txs)
    ensures SpentBy(H, txs) <= unspent && SpentBy(H, txs) !! spent
    decreases |txs|
  {
    if txs != [] {
      AcceptableCons(H, unspent, spent, txs);
      SpentByAcceptable(H, unspent, spent + InputHashes(H, txs[0]), txs[1..]);
    }
  }

  /** Only hashes that were unspent before the block can be spent in it:
      an output created earlier in the same block, and not already
      unspent, cannot be spent there. */
  lemma SameBlockOutputsUnspendable(H: Hasher, blocks: seq<BlockData>, unspent: set<Hash>, b: BlockData, h: Hash)
    requires Update(H, blocks, unspent, b).Ok? && h in SpentIn(H, b.transactions)
    ensures h in unspent
  {
    UpdateOutcome(H, blocks, unspent, b);
    SpentByAcceptable(H, unspent, {}, b.transactions[1..]);
  }

  /** What block `i` of an accepted chain spends was unspent after the
      blocks before it. */
  lemma SpentWasUnspent(H: Hasher, bs: seq<BlockData>, i: nat)
    requires Replay(H, bs).Some? && i < |bs|
    ensures SpentIn(H, bs[i].transactions) <= UnspentAfter(H, bs, i)
  {
    BlockStep(H, bs, i);
    if bs[i].transactions != [] {
      SpentByAcceptable(H, UnspentAfter(H, bs, i), {}, bs[i].transactions[1..]);
    }
  }

  /** A hash that is unspent after block `n` but was not after block `m`
      was created by one of the blocks `m .. n - 1`. */
  lemma {:induction false} ReappearsOnlyByCreation(H: Hasher, bs: seq<BlockData>, m: nat, n: nat, h: Hash)
    requires Replay(H, bs).Some? && m <= n <= |bs|
    requires h in UnspentAfter(H, bs, n) && h !in UnspentAfter(H, bs, m)
    ensures exists k :: m <= k < n && h in CreatedIn(H, bs[k].transactions)
    decreases n
  {
    assert n != m;
    BlockStep(H, bs, n - 1);
    if h !in CreatedIn(H, bs[n - 1].transactions) {
      ReappearsOnlyByCreation(H, bs, m, n - 1, h);
    }
  }

  /** No double spend: a hash spent by block `i` and again by a later
      block `j` was created anew by one of the blocks `i .. j - 1`. Within
      one block no hash is spent twice, by the definition of `Acceptable`. */
  lemma NoDoubleSpend(H: Hasher, bs: seq<BlockData>, i: nat, j: nat, h: Hash)
    requires Replay(H, bs).Some? && i < j < |bs|
    requires h in SpentIn(H, bs[i].transactions) && h in SpentIn(H, bs[j].transactions)
    ensures exists k :: i <= k < j && h in CreatedIn(H, bs[k].transactions)
  {
    SpentWasUnspent(H, bs, j);
    BlockStep(H, bs, i);
    if h !in CreatedIn(H, bs[i].transactions) {
      ReappearsOnlyByCreation(H, bs, i + 1, j, h);
    } else {
      assert i <= i < j && h in CreatedIn(H, bs[i].transactions);
    }
  }

  /** Every unspent hash of an accepted chain was created by one of its
      blocks. */
  lemma UnspentWereCreated(H: Hasher, bs: seq<BlockData>, h: Hash)
    requires Replay(H, bs).Some? && h in Replay(H, bs).value
    ensures exists k :: 0 <= k < |bs| && h in CreatedIn(H, bs[k].transactions)
  {
    assert bs[..|bs|] == bs;
    assert bs[..0] == [];
    ReappearsOnlyByCreation(H, bs, 0, |bs|, h);
  }

  /** The value a block adds to the ledger: nothing for a block without
      transactions, the coinbase's outputs for the genesis block, the
      reward for any other block. */
  function Minted(b: BlockData): nat
  {
    if b.transactions == [] then 0
    else if b.index == 0 then OutputValue(b.transactions[0])
    else REWARD
  }

  /** The value minted by the blocks of a chain. */
  function Supply(bs: seq<BlockData>): nat
  {
    if bs == [] then 0 else Supply(bs[..|bs| - 1]) + Minted(bs[|bs| - 1])
  }

  /** A packet list without a hash is empty. */
  lemma NoHashesNoPackets(H: Hasher, ps: seq<Packet>)
    requires HashesOf(H, ps) == {}
    ensures ps == []
  {
  }

  lemma {:induction false} FeeSumOfEmpty(txs: seq<Transaction>)
    requires forall i :: 0 <= i < |txs| ==> InputValue(txs[i]) == 0 && OutputValue(txs[i]) == 0
    ensures FeeSum(txs) == 0
  {
    if txs != [] {
      var init := txs[..|txs| - 1];
      assert forall i :: 0 <= i < |init| ==> init[i] == txs[i];
      FeeSumOfEmpty(init);
    }
  }

  /** An accepted block's transactions add exactly what it mints: the
      other transactions' fees pay the coinbase back, and in the genesis
      block, where nothing is unspent yet, those transactions can spend
      nothing and so create nothing. */
  lemma BlockMints(H: Hasher, blocks: seq<BlockData>, unspent: set<Hash>, b: BlockData)
    requires Update(H, blocks, unspent, b).Ok?
    requires blocks == [] ==> unspent == {}
    ensures TotalOutput(b.transactions) - TotalInput(b.transactions) == Minted(b)
  {
    UpdateOutcome(H, blocks, unspent, b);
    var txs := b.transactions;
    TotalsDifference(txs);
    if txs != [] {
      var rest := txs[1..];
      FeeSumCons(txs);
      assert txs[0].inputs == [];
      if b.index == 0 {
        forall i | 0 <= i < |rest|
          ensures InputValue(rest[i]) == 0 && OutputValue(rest[i]) == 0
        {
          NoHashesNoPackets(H, rest[i].inputs);
        }
        FeeSumOfEmpty(rest);
      }
    }
  }

  /** Supply conservation: summed over all owners, the balance of an
      accepted chain is the value its blocks minted. */
  lemma {:induction false} SupplyConserved(H: Hasher, bs: seq<BlockData>)
    requires Replay(H, bs).Some?
    ensures B.Total(OfChain(bs)) == Supply(bs)
  {
    if bs != [] {
      var init, last := bs[..|bs| - 1], bs[|bs| - 1];
      SupplyConserved(H, init);
      B.TotalCombined(OfChain(init), B.OfTransactions(last.transactions));
      B.TotalOfTransactions(last.transactions);
      BlockMints(H, init, Replay(H, init).value, last);
    }
  }

  /** A transaction that lists the same unspent packet twice as its input
      passes the walk: its input hashes collapse into one, which is
      unspent, while its input value counts the packet twice, so it may
      pay out twice the packet's value. */
  lemma DuplicateInputAccepted(H: Hasher, unspent: set<Hash>, p: Packet, q: Packet)
    requires PacketHash(H, p) in unspent && q.value == 2 * p.value
    ensures InputHashes(H, Transaction([p, p], [q])) == {PacketHash(H, p)}
    ensures InputValue(Transaction([p, p], [q])) == 2 * p.value
    ensures Scan(H, unspent, [Transaction([p, p], [q])], Tally({}, {}, 0)).Ok?
  {
    var t := Transaction([p, p], [q]);
    assert [p, p][1..] == [p] && [p][1..] == [];
    assert [p, p][..|[p, p]| - 1] == [p] && [p][..|[p]| - 1] == [] && [q][..|[q]| - 1] == [];
    assert Value([p]) == p.value;
    assert InputValue(t) == Value([p]) + p.value;
    assert HashesOf(H, [p]) == {PacketHash(H, p)};
    ScanStep(H, unspent, [t], 0, Tally({}, {}, 0));
    assert [t][0..] == [t] && [t][1..] == [];
  }

  /** A block whose transactions `with_coinbase` built from acceptable
      transactions, and whose header is valid, is accepted: the coinbase it
      prepends claims exactly what the reward rule demands. */
  lemma WithCoinbaseAccepted(H: Hasher, blocks: seq<BlockData>, unspent: set<Hash>, b: BlockData,
                             txs: seq<Transaction>, id: u64, to: Name)
    requires Fee(txs) + REWARD <= U64_MAX
    requires b.transactions == WithCoinbase(txs, id, to)
    requires Validate(H, blocks, b).Ok? && Acceptable(H, unspent, {}, txs)
    ensures Update(H, blocks, unspent, b).Ok?
  {
    WithCoinbaseReward(txs, id, to);
    UpdateOutcome(H, blocks, unspent, b);
  }
}
