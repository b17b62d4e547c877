/** Packets, transactions and the transaction list of a block: value sums,
    the hash sets of inputs and outputs, coinbase detection, the saturating
    fee and the prepending of a reward transaction. */
module Transactions {
  import opened Bytes

  /** An owner name, as the bytes that are fed to the hasher. */
  type Name = seq<byte>

  /** The fixed reward a block's coinbase may claim on top of the fees. */
  const REWARD: nat := 1

  /** A spendable unit of value. Two packets with equal fields are the same
      output: an input refers to an output by being an equal copy of it. */
  datatype Packet = Packet(to: Name, id: u64, value: u64)

  /** Owner bytes, then the u64 id, then the u64 value. */
  function PacketDigest(p: Packet): seq<byte>
  {
    p.to + U64Bytes(p.id) + U64Bytes(p.value)
  }

  /** The owner has no length prefix, but the two integers have a fixed
      width at the end, so the digest still determines the packet. */
  lemma PacketDigestInjective(p: Packet, q: Packet)
    requires PacketDigest(p) == PacketDigest(q)
    ensures p == q
  {
    EncodingsRoundTrip(0, 0, p.id, 0);
    EncodingsRoundTrip(0, 0, p.value, 0);
    EncodingsRoundTrip(0, 0, q.id, 0);
    EncodingsRoundTrip(0, 0, q.value, 0);
    TrailerSlices(p.to, U64Bytes(p.id), U64Bytes(p.value));
    TrailerSlices(q.to, U64Bytes(q.id), U64Bytes(q.value));
  }

  /** Where the pieces of a string that ends in two 8-byte fields sit. */
  lemma TrailerSlices(a: seq<byte>, i: seq<byte>, v: seq<byte>)
    requires |i| == 8 && |v| == 8
    ensures |a + i + v| == |a| + 16
    ensures (a + i + v)[..|a|] == a
    ensures (a + i + v)[|a|..|a| + 8] == i
    ensures (a + i + v)[|a| + 8..] == v
  {
  }

  function PacketHash(H: Hasher, p: Packet): Hash
  {
    H(PacketDigest(p))
  }

  datatype Transaction = Transaction(inputs: seq<Packet>, outputs: seq<Packet>)

  /** The sum of the packet values (a mathematical sum: u64 overflow is not
      modelled). */
  function Value(ps: seq<Packet>): nat
  {
    if ps == [] then 0 else Value(ps[..|ps| - 1]) + ps[|ps| - 1].value
  }

  lemma {:induction false} ValueAppend(ps: seq<Packet>, qs: seq<Packet>)
    ensures Value(ps + qs) == Value(ps) + Value(qs)
  {
    if qs == [] {
      assert ps + qs == ps;
    } else {
      assert (ps + qs)[..|ps + qs| - 1] == ps + qs[..|qs| - 1];
      ValueAppend(ps, qs[..|qs| - 1]);
    }
  }

  function InputValue(t: Transaction): nat
  {
    Value(t.inputs)
  }

  function OutputValue(t: Transaction): nat
  {
    Value(t.outputs)
  }

  /** The set of packet hashes (`map(hash).collect()` into a hash set). */
  function HashesOf(H: Hasher, ps: seq<Packet>): set<Hash>
  {
    if ps == [] then {} else {PacketHash(H, ps[0])} + HashesOf(H, ps[1..])
  }

  /** Every packet's hash is in the set, nothing else is, and there are at
      most as many hashes as packets. */
  lemma {:induction false} HashesOfMembers(H: Hasher, ps: seq<Packet>)
    ensures forall p :: p in ps ==> PacketHash(H, p) in HashesOf(H, ps)
    ensures forall h :: h in HashesOf(H, ps) ==> exists p :: p in ps && PacketHash(H, p) == h
    ensures |HashesOf(H, ps)| <= |ps|
  {
    if ps != [] {
      HashesOfMembers(H, ps[1..]);
      assert forall p :: p in ps ==> p == ps[0] || p in ps[1..];
    }
  }

  /** Listing the same packet twice yields fewer hashes than packets. */
  lemma {:induction false} DuplicatesCollapse(H: Hasher, ps: seq<Packet>, i: nat, j: nat)
    requires i < j < |ps| && ps[i] == ps[j]
    ensures |HashesOf(H, ps)| < |ps|
  {
    HashesOfMembers(H, ps[1..]);
    if i == 0 {
      assert ps[j] in ps[1..];
      assert HashesOf(H, ps) == HashesOf(H, ps[1..]);
    } else {
      DuplicatesCollapse(H, ps[1..], i - 1, j - 1);
    }
  }

  function InputHashes(H: Hasher, t: Transaction): set<Hash>
  {
    HashesOf(H, t.inputs)
  }

  function OutputHashes(H: Hasher, t: Transaction): set<Hash>
  {
    HashesOf(H, t.outputs)
  }

  /** A transaction that spends nothing. */
  predicate IsCoinbase(t: Transaction)
  {
    |t.inputs| == 0
  }

  /** The packets of the inputs and then of the outputs, with nothing that
      marks where the inputs end. */
  function TxDigest(t: Transaction): seq<byte>
  {
    DigestAll(t.inputs + t.outputs, PacketDigest)
  }

  lemma TxDigestLayout(t: Transaction)
    ensures TxDigest(t) == DigestAll(t.inputs, PacketDigest) + DigestAll(t.outputs, PacketDigest)
  {
    DigestAllAppend(t.inputs, t.outputs, PacketDigest);
  }

  /** Moving a packet from the inputs to the outputs leaves the digest
      as it was, although it turns a spending transaction into a coinbase. */
  lemma TxDigestIgnoresSplit(p: Packet)
    ensures TxDigest(Transaction([p], [])) == TxDigest(Transaction([], [p]))
    ensures !IsCoinbase(Transaction([p], [])) && IsCoinbase(Transaction([], [p]))
  {
    assert [p] + [] == [] + [p];
  }

  /** Output value not above input value: the transaction creates nothing. */
  predicate Balanced(t: Transaction)
  {
    OutputValue(t) <= InputValue(t)
  }

  function TotalInput(txs: seq<Transaction>): nat
  {
    if txs == [] then 0 else TotalInput(txs[..|txs| - 1]) + InputValue(txs[|txs| - 1])
  }

  function TotalOutput(txs: seq<Transaction>): nat
  {
    if txs == [] then 0 else TotalOutput(txs[..|txs| - 1]) + OutputValue(txs[|txs| - 1])
  }

  /** The sum of the per-transaction surpluses, input value minus output
      value, each of which may be negative. */
  function FeeSum(txs: seq<Transaction>): int
  {
    if txs == [] then 0
    else FeeSum(txs[..|txs| - 1]) + InputValue(txs[|txs| - 1]) - OutputValue(txs[|txs| - 1])
  }

  lemma {:induction false} FeeSumAppend(txs: seq<Transaction>, more: seq<Transaction>)
    ensures FeeSum(txs + more) == FeeSum(txs) + FeeSum(more)
  {
    if more == [] {
      assert txs + more == txs;
    } else {
      assert (txs + more)[..|txs + more| - 1] == txs + more[..|more| - 1];
      FeeSumAppend(txs, more[..|more| - 1]);
    }
  }

  lemma {:induction false} TotalsDifference(txs: seq<Transaction>)
    ensures TotalInput(txs) - TotalOutput(txs) == FeeSum(txs)
  {
    if txs != [] {
      TotalsDifference(txs[..|txs| - 1]);
    }
  }

  lemma {:induction false} FeeSumOfBalanced(txs: seq<Transaction>)
    requires forall i :: 0 <= i < |txs| ==> Balanced(txs[i])
    ensures FeeSum(txs) >= 0
  {
    if txs != [] {
      var init := txs[..|txs| - 1];
      assert forall i :: 0 <= i < |init| ==> init[i] == txs[i];
      FeeSumOfBalanced(init);
    }
  }

  /** `has_coinbase`: the list is non-empty and starts with a coinbase. */
  predicate HasCoinbase(txs: seq<Transaction>)
  {
    |txs| > 0 && IsCoinbase(txs[0])
  }

  /** `fee`: total input minus total output, saturating at zero. */
  function Fee(txs: seq<Transaction>): nat
  {
    if TotalInput(txs) > TotalOutput(txs) then TotalInput(txs) - TotalOutput(txs) else 0
  }

  /** The fee is the plain sum of per-transaction fees when no transaction
      creates value; the saturation only hides an overall deficit. */
  lemma FeeIsFeeSum(txs: seq<Transaction>)
    ensures Fee(txs) == if FeeSum(txs) > 0 then FeeSum(txs) else 0
    ensures (forall i :: 0 <= i < |txs| ==> Balanced(txs[i])) ==> Fee(txs) == FeeSum(txs)
  {
    TotalsDifference(txs);
    if forall i :: 0 <= i < |txs| ==> Balanced(txs[i]) {
      FeeSumOfBalanced(txs);
    }
  }

  /** `with_coinbase(id, to)`: a new first transaction without inputs pays
      the fee plus the reward to `to`; the original transactions follow in
      their original order. The u64 sum of the source must not overflow. */
  function WithCoinbase(txs: seq<Transaction>, id: u64, to: Name): (r: seq<Transaction>)
    requires Fee(txs) + REWARD <= U64_MAX
    ensures |r| == |txs| + 1 && HasCoinbase(r) && r[1..] == txs
    ensures r[0].outputs == [Packet(to, id, Fee(txs) + REWARD)]
  {
    var share := Fee(txs) + REWARD;
    [Transaction([], [Packet(to, id, share)])] + txs
  }

  /** When no transaction creates value, the coinbase that `with_coinbase`
      prepends claims exactly the sum of the per-transaction fees plus the
      reward, which is what a chain demands of a non-genesis block. */
  lemma WithCoinbaseReward(txs: seq<Transaction>, id: u64, to: Name)
    requires Fee(txs) + REWARD <= U64_MAX
    requires forall i :: 0 <= i < |txs| ==> Balanced(txs[i])
    ensures OutputValue(WithCoinbase(txs, id, to)[0]) == FeeSum(txs) + REWARD
  {
    TotalsDifference(txs);
    FeeSumOfBalanced(txs);
    var p := Packet(to, id, Fee(txs) + REWARD);
    assert WithCoinbase(txs, id, to)[0].outputs == [p];
    assert [p][..|[p]| - 1] == [];
    assert Value([p]) == Value([]) + p.value;
  }
}
