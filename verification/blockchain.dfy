/**
 The `Blockchain` class: a chain of sealed blocks and a buffer of pending
 transactions, the canonical hash of a block and the proof-of-work predicate.

 SHA-256 and the key-sorted JSON encoding are library calls whose internals
 the ledger never inspects, so they enter the model as the two functions of a
 `Crypto` value passed to every operation that hashes.
 */
module Blockchain {
  import opened Results
  import Text

  /** One transfer; sender and recipient are stored stripped of whitespace. */
  datatype Tx = Tx(sender: string, recipient: string, amount: int)

  /** The value stored under `prev_block`: the integer sentinel of the genesis
      block, or the hex digest of the preceding block. */
  datatype Link = Number(n: int) | Digest(hex: string)

  datatype Block = Block(
    index: int,
    timestamp: real,
    transactions: seq<Tx>,
    proof: int,
    prevBlock: Link)

  /** The state of a `Blockchain` object: `chain` and `current_transactions`. */
  datatype Ledger = Ledger(chain: seq<Block>, pending: seq<Tx>)

  /** SHA-256 as a hex digest, and `json.dumps(block, sort_keys=True)`. */
  datatype Crypto = Crypto(sha: string -> string, encode: Block -> string)

  /** `self.last_block` on an empty chain raises `IndexError`. */
  datatype LedgerError = EmptyChain

  /** The result of `new_block`: the updated ledger and the block it appended. */
  datatype Sealed = Sealed(ledger: Ledger, block: Block)

  /** The result of `new_transaction`: the updated ledger and the index it reports. */
  datatype Admitted = Admitted(ledger: Ledger, nextIndex: int)

  const GenesisLink: Link := Number(1)
  const GenesisProof: int := 100
  /** Leading `'0'` hex digits a valid proof must produce. */
  const Difficulty: nat := 6

  /** Python truthiness of a `previous_hash` argument. */
  predicate Truthy(link: Link) {
    match link
    case Number(n) => n != 0
    case Digest(h) => h != ""
  }

  /** `hash(block)`: SHA-256 of the canonical encoding. */
  function Hash(c: Crypto, b: Block): string {
    c.sha(c.encode(b))
  }

  /** `last_block`: the final element of the chain. */
  function LastBlock(l: Ledger): (b: Block)
    requires l.chain != []
    ensures b in l.chain
    ensures Contiguous(l.chain) ==> b.index == |l.chain|
    ensures Contiguous(l.chain) ==> forall i :: 0 <= i < |l.chain| ==> l.chain[i].index <= b.index
  {
    l.chain[|l.chain| - 1]
  }

  /** `last_block_string()`: the canonical encoding of the last block. */
  function LastBlockString(c: Crypto, l: Ledger): (s: string)
    requires l.chain != []
    ensures c.sha(s) == Hash(c, LastBlock(l))
  {
    c.encode(LastBlock(l))
  }

  /** Block indices are 1, 2, ..., |chain| in order. */
  predicate Contiguous(chain: seq<Block>) {
    forall i :: 0 <= i < |chain| ==> chain[i].index == i + 1
  }

  /** Every block after the first records the hash of its predecessor. */
  predicate Linked(c: Crypto, chain: seq<Block>) {
    forall i :: 0 < i < |chain| ==> chain[i].prevBlock == Digest(Hash(c, chain[i - 1]))
  }

  /** The chain starts with the genesis block built by the constructor. */
  predicate GenesisRooted(chain: seq<Block>) {
    && |chain| > 0
    && chain[0].index == 1
    && chain[0].transactions == []
    && chain[0].proof == GenesisProof
    && chain[0].prevBlock == GenesisLink
  }

  /** The ledger invariant every reachable `Blockchain` state satisfies. */
  predicate Valid(c: Crypto, l: Ledger) {
    GenesisRooted(l.chain) && Contiguous(l.chain) && Linked(c, l.chain)
  }

  /** `new_block(proof, previous_hash)`: seal the pending buffer into a block
      with the next index, linked to `previous_hash` when that is truthy and to
      the hash of the last block otherwise, then empty the buffer. */
  function NewBlock(c: Crypto, l: Ledger, timestamp: real, proof: int, previousHash: Option<Link>): (r: Result<Sealed, LedgerError>)
    ensures r.Failure? <==> l.chain == [] && (previousHash.None? || !Truthy(previousHash.value))
    ensures r.Success? ==> r.value.ledger.chain == l.chain + [r.value.block]
    ensures r.Success? ==> r.value.ledger.pending == []
    ensures r.Success? ==> r.value.block.index == |l.chain| + 1
    ensures r.Success? ==> r.value.block.transactions == l.pending
    ensures r.Success? ==> r.value.block.proof == proof && r.value.block.timestamp == timestamp
    ensures r.Success? && previousHash.Some? && Truthy(previousHash.value) ==> r.value.block.prevBlock == previousHash.value
    ensures r.Success? && (previousHash.None? || !Truthy(previousHash.value)) ==>
              r.value.block.prevBlock == Digest(Hash(c, LastBlock(l)))
    ensures r.Success? && Contiguous(l.chain) ==> Contiguous(r.value.ledger.chain)
  {
    var link :=
      if previousHash.Some? && Truthy(previousHash.value) then Some(previousHash.value)
      else if l.chain == [] then None
      else Some(Digest(Hash(c, LastBlock(l))));
    match link
    case None => Failure(EmptyChain)
    case Some(prev) =>
      var block := Block(|l.chain| + 1, timestamp, l.pending, proof, prev);
      Success(Sealed(Ledger(l.chain + [block], []), block))
  }

  /** `Blockchain()`: an empty ledger into which the genesis block is sealed. */
  function Init(c: Crypto, timestamp: real): (l: Ledger)
    ensures l.chain == [Block(1, timestamp, [], GenesisProof, GenesisLink)]
    ensures l.pending == []
  {
    NewBlock(c, Ledger([], []), timestamp, GenesisProof, Some(GenesisLink)).value.ledger
  }

  /** `new_transaction(sender, recipient, amount)`: buffer a transfer with
      stripped identifiers and report the index of the block it is due in. */
  function NewTransaction(l: Ledger, sender: string, recipient: string, amount: int): (r: Admitted)
    requires l.chain != []
    ensures r.ledger.chain == l.chain
    ensures |r.ledger.pending| == |l.pending| + 1
    ensures r.ledger.pending[..|l.pending|] == l.pending
    ensures r.ledger.pending[|l.pending|] == Tx(Text.Strip(sender), Text.Strip(recipient), amount)
    ensures Contiguous(l.chain) ==> r.nextIndex == |l.chain| + 1
  {
    var tx := Tx(Text.Strip(sender), Text.Strip(recipient), amount);
    Admitted(Ledger(l.chain, l.pending + [tx]), LastBlock(l).index + 1)
  }

  /** `"0" * n` */
  function Zeros(n: nat): (z: string)
    ensures |z| == n
    ensures forall i :: 0 <= i < n ==> z[i] == '0'
  {
    if n == 0 then "" else Zeros(n - 1) + "0"
  }

  /** `valid_proof(block_string, proof)`: the first six characters of the hex
      digest of `block_string` followed by the decimal proof are all `'0'`. */
  function ValidProof(c: Crypto, blockString: string, proof: int): (ok: bool)
    ensures ok <==>
      var digest := c.sha(blockString + Text.IntToString(proof));
      |digest| >= Difficulty && forall i :: 0 <= i < Difficulty ==> digest[i] == '0'
  {
    var digest := c.sha(blockString + Text.IntToString(proof));
    var prefix := if |digest| < Difficulty then digest else digest[..Difficulty];
    prefix == Zeros(Difficulty)
  }

  /** The constructor establishes the ledger invariant. */
  lemma InitValid(c: Crypto, timestamp: real)
    ensures Valid(c, Init(c, timestamp))
    ensures LastBlock(Init(c, timestamp)).index == 1
  {
  }

  /** Buffering a transaction leaves the chain, and so the invariant, alone. */
  lemma NewTransactionPreservesValid(c: Crypto, l: Ledger, sender: string, recipient: string, amount: int)
    requires Valid(c, l)
    ensures Valid(c, NewTransaction(l, sender, recipient, amount).ledger)
  {
  }

  /** Sealing without an explicit link keeps indices contiguous and links the
      new block to the hash of the old last block. */
  lemma NewBlockPreservesValid(c: Crypto, l: Ledger, timestamp: real, proof: int)
    requires Valid(c, l)
    ensures NewBlock(c, l, timestamp, proof, None).Success?
    ensures Valid(c, NewBlock(c, l, timestamp, proof, None).value.ledger)
  {
    var l' := NewBlock(c, l, timestamp, proof, None).value.ledger;
    forall i | 0 < i < |l'.chain|
      ensures l'.chain[i].prevBlock == Digest(Hash(c, l'.chain[i - 1]))
    {
      if i < |l.chain| {
        assert l'.chain[i] == l.chain[i] && l'.chain[i - 1] == l.chain[i - 1];
      }
    }
  }

  /** Sealing with an explicit link keeps the invariant exactly when that link
      resolves to the hash of the old last block. */
  lemma NewBlockExplicitLink(c: Crypto, l: Ledger, timestamp: real, proof: int, prev: Link)
    requires Valid(c, l)
    ensures NewBlock(c, l, timestamp, proof, Some(prev)).Success?
    ensures Valid(c, NewBlock(c, l, timestamp, proof, Some(prev)).value.ledger) <==>
              (!Truthy(prev) || prev == Digest(Hash(c, LastBlock(l))))
  {
    var l' := NewBlock(c, l, timestamp, proof, Some(prev)).value.ledger;
    assert l'.chain[|l.chain|].prevBlock == (if Truthy(prev) then prev else Digest(Hash(c, LastBlock(l))));
    assert l'.chain[|l.chain| - 1] == LastBlock(l);
    if !Truthy(prev) || prev == Digest(Hash(c, LastBlock(l))) {
      forall i | 0 < i < |l'.chain|
        ensures l'.chain[i].prevBlock == Digest(Hash(c, l'.chain[i - 1]))
      {
        if i < |l.chain| {
          assert l'.chain[i] == l.chain[i] && l'.chain[i - 1] == l.chain[i - 1];
        }
      }
    }
  }

  /** The puzzle input for a block string determines the proof: two different
      proofs never hash the same guess. */
  lemma GuessDeterminesProof(blockString: string, p: int, q: int)
    ensures blockString + Text.IntToString(p) == blockString + Text.IntToString(q) ==> p == q
  {
    if blockString + Text.IntToString(p) == blockString + Text.IntToString(q) {
      var n := |blockString|;
      assert Text.IntToString(p) == (blockString + Text.IntToString(p))[n..];
      assert Text.IntToString(q) == (blockString + Text.IntToString(q))[n..];
      Text.IntToStringInjective(p, q);
    }
  }
}
