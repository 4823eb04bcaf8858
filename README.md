# Blockchain voting ledger, modelled in Dafny

This project models the ledger of the blockchain voting system (`voting_system.py`). Votes
`{voter_id, candidate}` wait in a buffer of unconfirmed votes. `mine` seals the whole buffer into
a new block on top of the chain's tip. A proof-of-work search raises the block's nonce until the
block's digest starts with two `'0'` characters. `add_block` appends a block only when it names
the tip's hash as its parent and the proof matches the block's digest. `is_chain_valid`
re-hashes every block after the genesis block and checks its link to its predecessor.

- `block.dfy`, module `Blocks`: the vote and payload values, the record of attributes a digest
  is taken over (`DigestInput`), the `Block` class and the leading-zero test `'0' * d`.
- `blockchain.dfy`, module `Ledger`: the `Blockchain` class with two fields, the chain
  (`seq<Block>`) and the unconfirmed votes (`seq<Vote>`). It holds one method per operation.
  Beside them are the predicates the methods are proved against: `Linked`, `Consecutive`,
  `ChainValid` and `SealedVotes`. Lemmas relate each recursive predicate to its pairwise
  statement and to appending a block.

SHA-256 over `json.dumps(self.__dict__)` is modelled as an arbitrary function
`Digest = DigestInput -> string`. The ledger holds it as a constant. Every result holds for every
such function: no member requires the digest to avoid collisions. The digest input mirrors what the code
serialises:

- At construction, `__dict__` does not yet hold `hash`, so the stored hash is the digest of
  (index, timestamp, data, previous_hash, nonce 0) with no stored hash.
- Every later `compute_hash` call serialises the stored `hash` as well.
- `proof_of_work` changes only `nonce`; it never writes `hash`.

So the chain links through construction-time hashes. A mined block passes `is_chain_valid`'s hash
check exactly when the digest gives the same string for two different records. One is the
construction record (nonce 0, no stored hash). The other is the final record (winning nonce, stored
hash). `Mine` states the validity of the new chain as an if-and-only-if with that check, and
`MinedBlockPassesOnlyByCollision` proves that the check needs such a collision.

Three consequences of the code, which the model states as they are:

- The digest takes in the stored hash, so after `mine` the chain is not guaranteed to pass
  `is_chain_valid`; see the paragraph above.
- `compute_hash` serialises the stored `hash` along with the other attributes.
- `add_block` returns `True` on success, not the new block's position.

## Model

| member | source | states |
|---|---|---|
| Blocks.Zeros | voting_system.py:39 | `'0' * n` is a string of exactly max(n, 0) characters, all `'0'` |
| Blocks.HasLeadingZeros | voting_system.py:39 | `startswith('0' * d)` holds exactly when the string has at least d characters and the first d are `'0'`; for d <= 0 every string passes |
| Blocks.ZerosPrefix | voting_system.py:48 | a shorter run of zeros is a prefix of a longer one; the step `LeadingZerosWeaken` is proved with |
| Blocks.LeadingZerosWeaken | voting_system.py:36-48 | a digest meeting difficulty n meets every lower difficulty, so a proof sealed at difficulty 2 or more passes `add_block`'s fixed two-zero check |
| Blocks.ComputeHashDeterministic | voting_system.py:14-16 | two blocks that agree on every attribute, nonce and stored hash included, have the same `compute_hash`; it documents that the digest depends on nothing else and no other member uses it |
| Blocks.StoredHashInputDiffers | voting_system.py:11-15 | the record hashed at construction (no stored hash) differs from the record every later `compute_hash` hashes (with the stored hash), at every nonce; `MinedBlockPassesOnlyByCollision` is proved with it |
| Blocks.Block.ComputeHash | voting_system.py:14-16 | the digest of the record (index, timestamp, data, previous hash, current nonce, `Some(hash)`): the stored hash is part of what is hashed |
| Blocks.Block.constructor | voting_system.py:6-12 | the block keeps the given index, timestamp, data and previous hash, sets nonce 0, and stores the digest of those attributes at nonce 0 without a hash |
| Ledger.Blockchain.constructor | voting_system.py:19-22 | a new ledger has an empty buffer and exactly one fresh block, with index 0, previous hash "0", the genesis payload `{"votes": None}` and nonce 0; the ledger invariant holds and the one-block chain is valid |
| Ledger.Blockchain.CreateGenesisBlock | voting_system.py:24-26 | appends exactly one fresh genesis block (index 0, previous hash "0", genesis payload, given timestamp, construction-time hash) and keeps the earlier blocks |
| Ledger.Blockchain.LastBlock | voting_system.py:28-30 | the chain is its earlier blocks followed by the tip; in a valid ledger a one-block chain's tip is the genesis block, and a longer chain's tip names the hash of the block before it |
| Ledger.Blockchain.AddVote | voting_system.py:32-34 | the buffer gains exactly `Vote(voter_id, candidate)` at its end; the chain is unchanged; sealed votes followed by pending votes grow by exactly that vote |
| Ledger.Blockchain.ProofOfWork | voting_system.py:36-42 | returns a digest with `difficulty` leading zeros that equals `compute_hash` at the final nonce; every smaller nonce fails, so the nonce is the least; only `nonce` may change |
| Ledger.Blockchain.AddBlock | voting_system.py:44-51 | returns true exactly when the block's previous hash is the tip's hash, the proof starts with "00" and the proof equals the block's `compute_hash`; on true the chain is the old chain plus this block, otherwise unchanged; the ledger invariant (non-empty, genesis first, linked) is kept |
| Ledger.Blockchain.Mine | voting_system.py:53-66 | with an empty buffer: returns false and changes neither chain nor buffer. Otherwise: returns tip index + 1, appends one fresh block (index tip + 1, previous hash = tip hash, data = the old buffer in order, least two-zero nonce), empties the buffer, keeps the earlier blocks untouched, keeps indexes consecutive and conserves the votes. The new chain is valid iff the old chain was valid before the call and the new block's stored hash equals its recomputed digest |
| Ledger.Blockchain.MinedBlockPassesOnlyByCollision | voting_system.py:53-72 | for every digest, a mined block's stored hash equals its recomputed digest exactly when the digest of the construction record (nonce 0, no `hash`) equals the digest of the final record (winning nonce, stored `hash`), and those two records are always different |
| Ledger.Blockchain.IsChainValid | voting_system.py:68-76 | returns true exactly when every block after the first has stored hash = recomputed digest and previous hash = predecessor's hash; a one-block chain is valid |
| Ledger.ChainValidIff | voting_system.py:69-76 | the recursive validity predicate equals the pairwise check of every block i >= 1 against block i - 1 |
| Ledger.ChainValidPrefix | voting_system.py:69-76 | every non-empty prefix of a valid chain is valid, which justifies the scan's early `return False` |
| Ledger.ChainValidAppend | voting_system.py:68-76 | a chain plus one block is valid iff the chain is valid and the block passes the check against the old tip |
| Ledger.LinkedIff | voting_system.py:74 | the recursive linkage predicate equals "block i names block i - 1's hash, for every i >= 1" |
| Ledger.LinkedAppend | voting_system.py:45-50 | a chain plus one block stays linked iff the chain was linked and the block names the tip's hash |
| Ledger.ConsecutiveIff | voting_system.py:57 | the recursive index predicate equals "block i's index is block i - 1's plus one, for every i >= 1" |
| Ledger.ConsecutiveAppend | voting_system.py:57-62 | a chain plus one block keeps consecutive indexes iff it had them and the block's index follows the tip's |
| Ledger.SealedVotesAppend | voting_system.py:59-64 | appending a block appends exactly its votes to the votes sealed in the chain |

## Left out

- SHA-256 and `json.dumps` (voting_system.py:15-16) are foreign library calls. They appear as the `Digest` function the ledger is built with, and no property of them is assumed.
- `time.time()` (voting_system.py:25, 58) is clock input. It is the `timestamp` parameter of the constructor and of `Mine`, and it is never compared.
- Blockchain.constructor: it takes the digest and the genesis timestamp as parameters; the Python constructor takes none.
- ProofOfWork: it requires that some nonce gives the required leading zeros. Without one, the Python loop never ends, and a non-terminating loop cannot be written here; the termination of the search is therefore not modelled.
- Mine: for the same reason, with a non-empty buffer it requires that some nonce seals the candidate block at difficulty 2.
- Block attributes other than `nonce` are constants in the model. Python lets a caller reassign any attribute, but the ledger never does. Tampering with a stored block, and its detection by `is_chain_valid`, are therefore not modelled.
- `data=self.unconfirmed_votes` (voting_system.py:59, 64) shares the Python list with the buffer. The buffer is then rebound, not mutated, so the block's data is modelled as a copy of the buffer's value.
- Python's `mine` returns `False` or an integer, and `False == 0` in Python. The model's `MineResult` keeps the two apart.
- `voter_id` and `candidate` may be any Python value. They are modelled as strings.
- Mining two votes onto the genesis block gives a chain of length 2 and returns index 1, as `Mine`'s contract states for every buffer. With an arbitrary digest, the resulting chain cannot be shown to pass `is_chain_valid`, because the code does not guarantee it.
- Concurrency, networking, persistence and voter authentication: none of them exist in the source.
