/** Blocks: the header fields, the canonical digest byte layout that the
    block hash is computed from, the difficulty predicate, and the linear
    nonce search that mines a block in place. */
module Blocks {
  import opened Bytes
  import opened Transactions

  /** The value of a block: what the chain stores once a block has been
      moved into it. */
  datatype BlockData = BlockData(
    index: u64,
    nonce: u64,
    timestamp: Timestamp,
    difficulty: u128,
    prevBlockHash: Hash,
    hash: Hash,
    transactions: seq<Transaction>)
  {
    /** `check_difficulty(h)`: the proof-of-work window of `h`, read as a
        little-endian u128, is strictly below the block's difficulty. No
        hash passes when the difficulty is 0. */
    predicate CheckDifficulty(h: Hash)
    {
      Difficulty(h) < difficulty
    }
  }

  /** The bytes fed to the hasher: index, nonce and timestamp as u64, the
      difficulty as u128 (all little-endian), the 64 bytes of the previous
      hash, then every transaction's digest. The `hash` field is not part
      of it. */
  function BlockDigest(b: BlockData): seq<byte>
  {
    U64Bytes(b.index) + U64Bytes(b.nonce) + b.timestamp.Bytes()
      + U128Bytes(b.difficulty) + b.prevBlockHash
      + DigestAll(b.transactions, TxDigest)
  }

  /** `block.hash()`: the hasher applied to the digest bytes. */
  function BlockHash(H: Hasher, b: BlockData): Hash
  {
    H(BlockDigest(b))
  }

  /** Nonce `n` meets the block's target: with its nonce set to `n`, the
      block's own hash passes `check_difficulty`. */
  predicate MeetsTarget(H: Hasher, b: BlockData, n: u64)
  {
    b.CheckDifficulty(BlockHash(H, b.(nonce := n)))
  }

  /** No nonce in `[lo, hi)` meets the block's target, checked from the
      top of the range down. */
  predicate NoneMeets(H: Hasher, b: BlockData, lo: u64, hi: int)
    decreases hi - lo
  {
    hi <= lo || (hi - 1 <= U64_MAX && !MeetsTarget(H, b, hi - 1) && NoneMeets(H, b, lo, hi - 1))
  }

  lemma {:induction false} NoneMeetsAll(H: Hasher, b: BlockData, lo: u64, hi: int)
    requires hi <= U64_MAX + 1
    ensures NoneMeets(H, b, lo, hi) <==> forall n: u64 :: lo <= n < hi ==> !MeetsTarget(H, b, n)
    decreases hi - lo
  {
    if hi > lo {
      NoneMeetsAll(H, b, lo, hi - 1);
    }
  }

  /** Where each piece of a header of widths 8, 8, 8, 16 and 64 sits. */
  lemma HeaderSlices(i: seq<byte>, n: seq<byte>, t: seq<byte>, k: seq<byte>, p: seq<byte>, x: seq<byte>)
    requires |i| == 8 && |n| == 8 && |t| == 8 && |k| == 16 && |p| == 64
    ensures (i + n + t + k + p + x)[0..8] == i
    ensures (i + n + t + k + p + x)[8..16] == n
    ensures (i + n + t + k + p + x)[16..24] == t
    ensures (i + n + t + k + p + x)[24..40] == k
    ensures (i + n + t + k + p + x)[40..104] == p
    ensures (i + n + t + k + p + x)[104..] == x
  {
  }

  /** The digest has a fixed 104-byte header from which every header field
      can be read back at its fixed offset; the transaction digests follow. */
  lemma DigestLayout(b: BlockData)
    ensures |BlockDigest(b)| == 104 + |DigestAll(b.transactions, TxDigest)|
    ensures FromLittleEndian(BlockDigest(b)[0..8]) == b.index
    ensures FromLittleEndian(BlockDigest(b)[8..16]) == b.nonce
    ensures FromLittleEndian(BlockDigest(b)[16..24]) == b.timestamp.millis
    ensures FromLittleEndian(BlockDigest(b)[24..40]) == b.difficulty
    ensures BlockDigest(b)[40..104] == b.prevBlockHash
    ensures BlockDigest(b)[104..] == DigestAll(b.transactions, TxDigest)
  {
    EncodingsRoundTrip(0, 0, b.index, b.difficulty);
    EncodingsRoundTrip(0, 0, b.nonce, 0);
    EncodingsRoundTrip(0, 0, b.timestamp.millis, 0);
    HeaderSlices(U64Bytes(b.index), U64Bytes(b.nonce), b.timestamp.Bytes(), U128Bytes(b.difficulty),
                 b.prevBlockHash, DigestAll(b.transactions, TxDigest));
  }

  /** Two blocks with the same digest agree on every header field except
      `hash`, and on the digest of their transactions: the only collisions
      the layout itself allows are inside the transaction list. */
  lemma DigestDeterminesHeader(a: BlockData, b: BlockData)
    requires BlockDigest(a) == BlockDigest(b)
    ensures a.index == b.index && a.nonce == b.nonce && a.timestamp == b.timestamp
    ensures a.difficulty == b.difficulty && a.prevBlockHash == b.prevBlockHash
    ensures DigestAll(a.transactions, TxDigest) == DigestAll(b.transactions, TxDigest)
  {
    DigestLayout(a);
    DigestLayout(b);
  }

  /** Whether a nonce meets the target depends neither on the block's
      current nonce nor on its stored hash: mining may overwrite both. */
  lemma MeetsTargetIgnoresNonceAndHash(H: Hasher, b: BlockData, k: u64, h: Hash, n: u64)
    ensures MeetsTarget(H, b.(nonce := k, hash := h), n) == MeetsTarget(H, b, n)
  {
    assert b.(nonce := k, hash := h).(nonce := n) == b.(nonce := n).(hash := h);
    assert BlockDigest(b.(nonce := n).(hash := h)) == BlockDigest(b.(nonce := n));
  }

  /** The block value mining sees after setting nonce `n` is the starting
      block with that nonce, whatever hash it carried. */
  lemma Retarget(H: Hasher, start: BlockData, b: BlockData, n: u64)
    requires b.index == start.index && b.nonce == n && b.timestamp == start.timestamp
    requires b.difficulty == start.difficulty && b.prevBlockHash == start.prevBlockHash
    requires b.transactions == start.transactions
    ensures BlockHash(H, b) == BlockHash(H, start.(nonce := n))
    ensures b.CheckDifficulty(BlockHash(H, b)) == MeetsTarget(H, start, n)
  {
    assert BlockDigest(b) == BlockDigest(start.(nonce := n));
  }

  /** A block being built and mined. Mining assigns `nonce` on every try
      and `hash` on success; the other fields are never changed. */
  class Block {
    var index: u64
    var nonce: u64
    var timestamp: Timestamp
    var difficulty: u128
    var prevBlockHash: Hash
    var hash: Hash
    var transactions: seq<Transaction>

    /** `Block::new`: the given fields, nonce 0 and the all-zero hash. */
    constructor (index: u64, timestamp: Timestamp, difficulty: u128, prevBlockHash: Hash, transactions: seq<Transaction>)
      ensures Value() == BlockData(index, 0, timestamp, difficulty, prevBlockHash, ZeroHash(), transactions)
    {
      this.index := index;
      this.nonce := 0;
      this.timestamp := timestamp;
      this.difficulty := difficulty;
      this.prevBlockHash := prevBlockHash;
      this.transactions := transactions;
      this.hash := ZeroHash();
    }

    /** The current field values. */
    function Value(): BlockData
      reads this
    {
      BlockData(index, nonce, timestamp, difficulty, prevBlockHash, hash, transactions)
    }

    /** `mine_range(lo, hi)`: try the nonces `lo, lo + 1, ..., hi - 1` in
        order, leaving each in `nonce`; on the first whose hash passes the
        difficulty check, store that hash and report success. Only `nonce`
        and `hash` change. */
    method MineRange(H: Hasher, lo: u64, hi: u64) returns (found: bool)
      modifies this`nonce, this`hash
      ensures Value() == old(Value()).(nonce := nonce, hash := hash)
      ensures found ==> lo <= nonce < hi
      ensures found ==> hash == BlockHash(H, Value()) && Value().CheckDifficulty(hash)
      ensures found ==> NoneMeets(H, old(Value()), lo, nonce)
      ensures !found ==> NoneMeets(H, old(Value()), lo, hi)
      ensures !found ==> hash == old(hash) && nonce == (if lo < hi then hi - 1 else old(nonce))
    {
      ghost var start := Value();
      var n := lo;
      while n < hi
        invariant lo < hi ==> lo <= n <= hi
        invariant hi <= lo ==> n == lo
        invariant hash == start.hash
        invariant n == lo ==> nonce == start.nonce
        invariant n > lo ==> nonce == n - 1
        invariant NoneMeets(H, start, lo, n)
      {
        nonce := n;
        var b := Value();
        var h := BlockHash(H, b);
        Retarget(H, start, b, n);
        if b.CheckDifficulty(h) {
          hash := h;
          return true;
        }
        n := n + 1;
      }
      return false;
    }

    /** `mine`: search `[0, u64::MAX)`. The largest nonce is never tried, so
        a block whose only winning nonce is `u64::MAX` cannot be mined. */
    method Mine(H: Hasher) returns (found: bool)
      modifies this`nonce, this`hash
      ensures Value() == old(Value()).(nonce := nonce, hash := hash)
      ensures found ==> nonce < U64_MAX
      ensures found ==> hash == BlockHash(H, Value()) && Value().CheckDifficulty(hash)
      ensures found ==> NoneMeets(H, old(Value()), 0, nonce)
      ensures !found ==> NoneMeets(H, old(Value()), 0, U64_MAX)
      ensures !found ==> hash == old(hash) && nonce == U64_MAX - 1
    {
      found := MineRange(H, 0, U64_MAX);
    }
  }

  /** No hash passes the check of a block whose difficulty is 0, so such a
      block can never be mined. */
  lemma ZeroDifficultyUnmineable(H: Hasher, b: BlockData, n: u64)
    requires b.difficulty == 0
    ensures !MeetsTarget(H, b, n)
  {
  }
}
