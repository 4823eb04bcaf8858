/** Blocks of the voting ledger: the vote records they carry, the record of fields
    their digest is taken over, and the leading-zero predicate of proof-of-work. */
module Blocks {

  datatype Option<T> = None | Some(value: T)

  /** Wall-clock time of block construction. It is recorded and hashed, never compared. */
  type Timestamp = real

  /** One pending ballot, `{"voter_id": ..., "candidate": ...}`. */
  datatype Vote = Vote(voterId: string, candidate: string)

  /** A block's `data`: the genesis marker `{"votes": None}`, or the batch of votes it seals. */
  datatype Payload = GenesisPayload | Votes(votes: seq<Vote>)

  /** Everything the digest of a block is computed over: the block's attributes at the time
      of the call. At construction the stored hash does not exist yet (`None`); on every
      later call it is part of the serialised attributes (`Some`). */
  datatype DigestInput = DigestInput(
    index: int,
    timestamp: Timestamp,
    data: Payload,
    previousHash: string,
    nonce: nat,
    storedHash: Option<string>)

  /** A deterministic digest of a block's attributes, written out as a hex string.
      The model holds for every such function; no property of SHA-256 is assumed. */
  type Digest = DigestInput -> string

  /** The string `'0' * n`; like Python's string repetition it is empty when n <= 0. */
  function Zeros(n: int): (z: string)
    ensures |z| == if n <= 0 then 0 else n
    ensures forall i :: 0 <= i < |z| ==> z[i] == '0'
  {
    if n <= 0 then "" else Zeros(n - 1) + "0"
  }

  /** `s.startswith('0' * difficulty)`: the first `difficulty` characters exist and are all '0';
      a difficulty of zero or less accepts every string. */
  predicate HasLeadingZeros(s: string, difficulty: int): (r: bool)
    ensures r <==> (difficulty <= |s| && forall i :: 0 <= i < difficulty ==> s[i] == '0')
  {
    Zeros(difficulty) <= s
  }

  /** A shorter run of zeros is a prefix of a longer one. */
  lemma ZerosPrefix(m: int, n: int)
    requires m <= n
    ensures Zeros(m) <= Zeros(n)
  {
  }

  /** A digest that meets a higher difficulty meets every lower one; in particular a proof
      sealed at a difficulty of at least 2 passes the fixed two-zero check of `add_block`. */
  lemma LeadingZerosWeaken(s: string, m: int, n: int)
    requires m <= n && HasLeadingZeros(s, n)
    ensures HasLeadingZeros(s, m)
  {
    ZerosPrefix(m, n);
  }

  /** `compute_hash` is deterministic: blocks that agree on every attribute, the nonce and the
      stored hash included, have the same digest. */
  lemma ComputeHashDeterministic(digest: Digest, a: Block, b: Block)
    requires a.index == b.index && a.timestamp == b.timestamp && a.data == b.data
    requires a.previousHash == b.previousHash && a.nonce == b.nonce && a.hash == b.hash
    ensures a.ComputeHash(digest) == b.ComputeHash(digest)
  {
  }

  /** The digest stored at construction and every later `compute_hash` are taken over different
      attribute records (the later ones contain a stored hash), so they agree only where the
      digest maps two different records to the same string. */
  lemma StoredHashInputDiffers(b: Block, n: nat)
    ensures DigestInput(b.index, b.timestamp, b.data, b.previousHash, 0, None) != b.InputAt(n)
  {
  }

  /** A block of the chain. Only `nonce` changes after construction (during proof-of-work);
      the other attributes, the stored `hash` included, keep their construction-time values. */
  class Block {
    const index: int
    const timestamp: Timestamp
    const data: Payload
    const previousHash: string
    var nonce: nat
    const hash: string

    /** The attributes `compute_hash` serialises once the block exists, at a given nonce. */
    function InputAt(n: nat): DigestInput {
      DigestInput(index, timestamp, data, previousHash, n, Some(hash))
    }

    /** `compute_hash()`: the digest of the current attributes, the stored hash among them. */
    function ComputeHash(digest: Digest): (h: string)
      reads this
      ensures h == digest(DigestInput(index, timestamp, data, previousHash, nonce, Some(hash)))
    {
      digest(InputAt(nonce))
    }

    /** `Block(index, timestamp, data, previous_hash)`: nonce 0, and the hash taken over the
        attributes set so far, which do not yet include a hash. */
    constructor (index: int, timestamp: Timestamp, data: Payload, previousHash: string, digest: Digest)
      ensures this.index == index && this.timestamp == timestamp
      ensures this.data == data && this.previousHash == previousHash
      ensures nonce == 0
      ensures hash == digest(DigestInput(index, timestamp, data, previousHash, 0, None))
    {
      this.index := index;
      this.timestamp := timestamp;
      this.data := data;
      this.previousHash := previousHash;
      this.nonce := 0;
      this.hash := digest(DigestInput(index, timestamp, data, previousHash, 0, None));
    }
  }
}
