/** The ledger: a chain of blocks and a buffer of votes not yet sealed into one. */
module Ledger {
  import opened Blocks

  /** The default difficulty of `proof_of_work`, and the fixed difficulty `add_block` checks. */
  const MineDifficulty: int := 2

  /** What `mine` returns: `False`, or the index of the block it appended. */
  datatype MineResult = NotMined | Mined(index: int)

  /** The first block as `create_genesis_block` makes it. */
  predicate IsGenesis(b: Block) {
    b.index == 0 && b.previousHash == "0" && b.data == GenesisPayload
  }

  /** `next` names `prev`'s stored hash as its previous hash. */
  predicate LinksTo(prev: Block, next: Block) {
    next.previousHash == prev.hash
  }

  /** Every block names its predecessor's stored hash as its previous hash. */
  predicate Linked(c: seq<Block>)
    decreases |c|
  {
    |c| <= 1 || (Linked(c[..|c| - 1]) && LinksTo(c[|c| - 2], c[|c| - 1]))
  }

  /** `next`'s index is one more than `prev`'s. */
  predicate Succeeds(prev: Block, next: Block) {
    next.index == prev.index + 1
  }

  /** Block indexes go up by one along the chain. */
  predicate Consecutive(c: seq<Block>)
    decreases |c|
  {
    |c| <= 1 || (Consecutive(c[..|c| - 1]) && Succeeds(c[|c| - 2], c[|c| - 1]))
  }

  /** The check `is_chain_valid` makes of block `next` after `prev`: its stored hash equals
      its recomputed digest, and it names `prev`'s stored hash as its previous hash. */
  ghost predicate PassesCheck(digest: Digest, prev: Block, next: Block)
    reads next
  {
    next.hash == next.ComputeHash(digest) && LinksTo(prev, next)
  }

  /** What `is_chain_valid` accepts: every block after the first passes the check against its
      predecessor. The first block is not checked. */
  ghost predicate ChainValid(digest: Digest, c: seq<Block>)
    reads c
    decreases |c|
  {
    |c| <= 1 || (ChainValid(digest, c[..|c| - 1]) && PassesCheck(digest, c[|c| - 2], c[|c| - 1]))
  }

  /** Linked, stated pairwise: block i names block i - 1's stored hash, for every i >= 1. */
  lemma {:induction false} LinkedIff(c: seq<Block>)
    ensures Linked(c) <==> forall i :: 1 <= i < |c| ==> LinksTo(c[i - 1], c[i])
    decreases |c|
  {
    if |c| > 1 {
      var p := c[..|c| - 1];
      LinkedIff(p);
      assert forall i :: 0 <= i < |p| ==> p[i] == c[i];
    }
  }

  /** Consecutive, stated pairwise: block i has index one more than block i - 1, for every i >= 1. */
  lemma {:induction false} ConsecutiveIff(c: seq<Block>)
    ensures Consecutive(c) <==> forall i :: 1 <= i < |c| ==> Succeeds(c[i - 1], c[i])
    decreases |c|
  {
    if |c| > 1 {
      var p := c[..|c| - 1];
      ConsecutiveIff(p);
      assert forall i :: 0 <= i < |p| ==> p[i] == c[i];
    }
  }

  /** ChainValid, stated pairwise as `is_chain_valid`'s loop reads: every block i >= 1 passes
      the check against block i - 1. */
  lemma {:induction false} ChainValidIff(digest: Digest, c: seq<Block>)
    ensures ChainValid(digest, c) <==> forall i :: 1 <= i < |c| ==> PassesCheck(digest, c[i - 1], c[i])
    decreases |c|
  {
    if |c| > 1 {
      var p := c[..|c| - 1];
      ChainValidIff(digest, p);
      assert forall i :: 0 <= i < |p| ==> p[i] == c[i];
    }
  }

  /** Every non-empty prefix of a valid chain is valid. */
  lemma {:induction false} ChainValidPrefix(digest: Digest, c: seq<Block>, k: nat)
    requires 1 <= k <= |c| && ChainValid(digest, c)
    ensures ChainValid(digest, c[..k])
    decreases |c|
  {
    if k == |c| {
      assert c[..k] == c;
    } else {
      var p := c[..|c| - 1];
      assert p[..k] == c[..k];
      ChainValidPrefix(digest, p, k);
    }
  }

  /** Appending a block keeps the chain linked exactly when it names the tip's stored hash. */
  lemma LinkedAppend(c: seq<Block>, b: Block)
    requires c != []
    ensures Linked(c + [b]) <==> Linked(c) && LinksTo(c[|c| - 1], b)
  {
  }

  /** Appending a block keeps indexes consecutive exactly when its index follows the tip's. */
  lemma ConsecutiveAppend(c: seq<Block>, b: Block)
    requires c != []
    ensures Consecutive(c + [b]) <==> Consecutive(c) && Succeeds(c[|c| - 1], b)
  {
  }

  /** A chain extended by one block is valid exactly when the old chain was valid and the
      new block passes the check against the old tip. */
  lemma ChainValidAppend(digest: Digest, c: seq<Block>, b: Block)
    requires c != []
    ensures ChainValid(digest, c + [b]) <==> ChainValid(digest, c) && PassesCheck(digest, c[|c| - 1], b)
  {
  }

  /** The votes a payload carries. */
  function VotesOf(p: Payload): seq<Vote> {
    match p
    case GenesisPayload => []
    case Votes(vs) => vs
  }

  /** All votes sealed in a chain, block by block, in chain order. */
  function SealedVotes(c: seq<Block>): seq<Vote> {
    if c == [] then [] else VotesOf(c[0].data) + SealedVotes(c[1..])
  }

  /** Appending a block adds exactly its votes after those already sealed. */
  lemma {:induction false} SealedVotesAppend(c: seq<Block>, b: Block)
    ensures SealedVotes(c + [b]) == SealedVotes(c) + VotesOf(b.data)
  {
    if c == [] {
      assert [b][1..] == [];
    } else {
      assert (c + [b])[1..] == c[1..] + [b];
      SealedVotesAppend(c[1..], b);
    }
  }

  class Blockchain {
    const digest: Digest
    var unconfirmedVotes: seq<Vote>
    var chain: seq<Block>

    /** The ledger's invariant: the chain is never empty, starts with a genesis block and is linked. */
    ghost predicate Valid()
      reads this`chain
    {
      chain != [] && IsGenesis(chain[0]) && Linked(chain)
    }

    /** `Blockchain()`: an empty buffer and a chain holding only the genesis block. */
    constructor (digest: Digest, timestamp: Timestamp)
      ensures Valid() && this.digest == digest
      ensures unconfirmedVotes == []
      ensures |chain| == 1 && fresh(chain[0]) && IsGenesis(chain[0])
      ensures chain[0].timestamp == timestamp && chain[0].nonce == 0
      ensures chain[0].hash == digest(DigestInput(0, timestamp, GenesisPayload, "0", 0, None))
      ensures ChainValid(digest, chain)
    {
      this.digest := digest;
      unconfirmedVotes := [];
      chain := [];
      new;
      CreateGenesisBlock(timestamp);
    }

    /** `create_genesis_block`: append a fresh block with index 0, the genesis payload and
        previous hash "0"; no proof-of-work is done for it. */
    method CreateGenesisBlock(timestamp: Timestamp)
      modifies this`chain
      ensures |chain| == |old(chain)| + 1 && chain[..|old(chain)|] == old(chain)
      ensures fresh(chain[|chain| - 1]) && IsGenesis(chain[|chain| - 1])
      ensures chain[|chain| - 1].timestamp == timestamp && chain[|chain| - 1].nonce == 0
      ensures chain[|chain| - 1].hash == digest(DigestInput(0, timestamp, GenesisPayload, "0", 0, None))
    {
      var genesis := new Block(0, timestamp, GenesisPayload, "0", digest);
      chain := chain + [genesis];
    }

    /** `last_block`: the tip of the chain. The chain is its earlier blocks followed by the tip;
        in a valid ledger a lone tip is the genesis block, and any other tip is linked to the
        block before it. */
    function LastBlock(): (b: Block)
      reads this`chain
      requires chain != []
      ensures chain == chain[..|chain| - 1] + [b]
      ensures Valid() && |chain| == 1 ==> IsGenesis(b)
      ensures Valid() && |chain| >= 2 ==> LinksTo(chain[|chain| - 2], b)
    {
      chain[|chain| - 1]
    }

    /** `add_vote`: the vote goes to the end of the buffer; the chain is untouched. */
    method AddVote(voterId: string, candidate: string)
      modifies this`unconfirmedVotes
      ensures unconfirmedVotes == old(unconfirmedVotes) + [Vote(voterId, candidate)]
      ensures chain == old(chain)
      ensures SealedVotes(chain) + unconfirmedVotes == old(SealedVotes(chain) + unconfirmedVotes) + [Vote(voterId, candidate)]
    {
      unconfirmedVotes := unconfirmedVotes + [Vote(voterId, candidate)];
    }

    /** Nonce n gives the block a digest with `difficulty` leading zeros. */
    predicate Seals(block: Block, n: nat, difficulty: int) {
      HasLeadingZeros(digest(block.InputAt(n)), difficulty)
    }

    /** `proof_of_work`: try nonces 0, 1, 2, ... until the digest has `difficulty` leading
        zeros. The search ends only if some nonce works, which the caller must ensure. The
        nonce found is the least one; the stored hash and other attributes stay as they were. */
    method ProofOfWork(block: Block, difficulty: int := MineDifficulty) returns (computedHash: string)
      requires exists n: nat :: Seals(block, n, difficulty)
      modifies block`nonce
      ensures HasLeadingZeros(computedHash, difficulty)
      ensures computedHash == block.ComputeHash(digest)
      ensures forall n: nat :: n < block.nonce ==> !Seals(block, n, difficulty)
    {
      ghost var w: nat :| Seals(block, w, difficulty);
      block.nonce := 0;
      computedHash := block.ComputeHash(digest);
      while !HasLeadingZeros(computedHash, difficulty)
        invariant computedHash == block.ComputeHash(digest)
        invariant forall n: nat :: n < block.nonce ==> !Seals(block, n, difficulty)
        invariant block.nonce <= w
        decreases w - block.nonce
      {
        block.nonce := block.nonce + 1;
        computedHash := block.ComputeHash(digest);
      }
    }

    /** `add_block`: append the block if it names the tip as its parent and the proof has two
        leading zeros and equals the block's current digest; otherwise change nothing. */
    method AddBlock(block: Block, proof: string) returns (added: bool)
      requires Valid()
      modifies this`chain
      ensures Valid()
      ensures added == (block.previousHash == old(LastBlock()).hash &&
                        HasLeadingZeros(proof, MineDifficulty) && proof == block.ComputeHash(digest))
      ensures chain == if added then old(chain) + [block] else old(chain)
    {
      var previousHash := LastBlock().hash;
      if previousHash != block.previousHash {
        return false;
      }
      if !HasLeadingZeros(proof, MineDifficulty) || proof != block.ComputeHash(digest) {
        return false;
      }
      LinkedAppend(chain, block);
      chain := chain + [block];
      return true;
    }

    /** The attributes of the block `mine` would build at a given time, once constructed, at nonce n. */
    function CandidateInput(timestamp: Timestamp, n: nat): (d: DigestInput)
      reads this
      requires chain != []
    {
      var tip := LastBlock();
      var index := tip.index + 1;
      var data := Votes(unconfirmedVotes);
      DigestInput(index, timestamp, data, tip.hash, n,
                  Some(digest(DigestInput(index, timestamp, data, tip.hash, 0, None))))
    }

    /** The block `mine` appends on a tip with the given index and hash: it carries the given
        votes and time, its stored hash was taken at construction (nonce 0, no hash yet), and its
        nonce is the least one whose digest has two leading zeros. */
    ghost predicate IsMinedBlock(b: Block, tipIndex: int, tipHash: string, votes: seq<Vote>, timestamp: Timestamp)
      reads b
    {
      && b.index == tipIndex + 1 && b.timestamp == timestamp
      && b.data == Votes(votes) && b.previousHash == tipHash
      && b.hash == digest(DigestInput(tipIndex + 1, timestamp, Votes(votes), tipHash, 0, None))
      && Seals(b, b.nonce, MineDifficulty)
      && forall n: nat :: n < b.nonce ==> !Seals(b, n, MineDifficulty)
    }

    /** A block built by `mine` passes `is_chain_valid`'s hash check exactly when the digest gives
        the same string for two different attribute records: the one hashed at construction
        (nonce 0, no stored hash) and the one recomputed later (final nonce, stored hash). */
    lemma MinedBlockPassesOnlyByCollision(b: Block, tipIndex: int, tipHash: string, votes: seq<Vote>,
                                          timestamp: Timestamp)
      requires IsMinedBlock(b, tipIndex, tipHash, votes, timestamp)
      ensures b.hash == b.ComputeHash(digest) <==>
              digest(DigestInput(b.index, b.timestamp, b.data, b.previousHash, 0, None)) == digest(b.InputAt(b.nonce))
      ensures DigestInput(b.index, b.timestamp, b.data, b.previousHash, 0, None) != b.InputAt(b.nonce)
    {
      StoredHashInputDiffers(b, b.nonce);
    }

    /** `mine`: with an empty buffer, nothing happens. Otherwise a block sealing the whole buffer
        is built on the tip, sealed at the default difficulty and appended (the append checks
        always pass), the buffer is emptied and the new index returned. */
    method Mine(timestamp: Timestamp) returns (result: MineResult)
      requires Valid()
      requires unconfirmedVotes != [] ==>
               exists n: nat :: HasLeadingZeros(digest(CandidateInput(timestamp, n)), MineDifficulty)
      modifies this
      ensures Valid()
      ensures old(unconfirmedVotes) == [] ==>
              result == NotMined && chain == old(chain) && unconfirmedVotes == old(unconfirmedVotes)
      ensures old(unconfirmedVotes) != [] ==>
              && result == Mined(old(chain)[|old(chain)| - 1].index + 1)
              && unconfirmedVotes == []
              && chain == old(chain) + [LastBlock()]
              && fresh(LastBlock())
              && IsMinedBlock(LastBlock(), old(chain)[|old(chain)| - 1].index, old(chain)[|old(chain)| - 1].hash,
                              old(unconfirmedVotes), timestamp)
      ensures SealedVotes(chain) + unconfirmedVotes == old(SealedVotes(chain) + unconfirmedVotes)
      ensures old(Consecutive(chain)) ==> Consecutive(chain)
      ensures forall i :: 0 <= i < |old(chain)| ==> unchanged(old(chain)[i])
      ensures old(unconfirmedVotes) != [] ==>
              (ChainValid(digest, chain) <==>
               old(ChainValid(digest, chain)) && LastBlock().hash == LastBlock().ComputeHash(digest))
    {
      if unconfirmedVotes == [] {
        return NotMined;
      }
      ghost var oldChain, votes, wasValid := chain, unconfirmedVotes, ChainValid(digest, chain);
      ghost var w: nat :| HasLeadingZeros(digest(CandidateInput(timestamp, w)), MineDifficulty);
      var lastBlock := LastBlock();
      var newBlock := new Block(lastBlock.index + 1, timestamp, Votes(unconfirmedVotes), lastBlock.hash, digest);
      assert Seals(newBlock, w, MineDifficulty) by {
        assert newBlock.InputAt(w) == CandidateInput(timestamp, w);
      }
      var proof := ProofOfWork(newBlock);
      assert ChainValid(digest, oldChain) == wasValid;
      assert IsMinedBlock(newBlock, lastBlock.index, lastBlock.hash, votes, timestamp);
      var added := AddBlock(newBlock, proof);
      if added {
        unconfirmedVotes := [];
        SealedVotesAppend(oldChain, newBlock);
        ConsecutiveAppend(oldChain, newBlock);
        ChainValidAppend(digest, oldChain, newBlock);
        return Mined(newBlock.index);
      }
      assert false;
      return NotMined;
    }

    /** `is_chain_valid`: scan blocks 1 .. len-1, rejecting at the first block whose stored hash
        differs from its recomputed digest or whose previous hash differs from its predecessor's hash. */
    method IsChainValid() returns (valid: bool)
      ensures valid == ChainValid(digest, chain)
    {
      var i := 1;
      while i < |chain|
        invariant 1 <= i && (chain != [] ==> i <= |chain|)
        invariant chain != [] ==> ChainValid(digest, chain[..i])
      {
        var current := chain[i];
        var previous := chain[i - 1];
        if current.hash != current.ComputeHash(digest) || current.previousHash != previous.hash {
          assert !ChainValid(digest, chain[..i + 1]) by {
            assert chain[..i + 1][..i] == chain[..i];
          }
          if ChainValid(digest, chain) {
            ChainValidPrefix(digest, chain, i + 1);
          }
          return false;
        }
        assert chain[..i + 1][..i] == chain[..i];
        i := i + 1;
      }
      assert chain != [] ==> chain[..i] == chain;
      return true;
    }
  }
}
