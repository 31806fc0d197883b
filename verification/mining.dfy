/**
 The ledger logic of the `/mine` handler: check the submitted proof against
 the last block's canonical string, and on success forge a block linked to the
 last block's hash and then credit the miner with a reward transaction.
 Also the sequences of operations a running node can apply to its ledger.
 */
module Mining {
  import opened Results
  import opened Blockchain
  import Text

  /** The system sender of reward transactions, and the reward per block. */
  const RewardSender: string := "0"
  const RewardAmount: int := 1

  /** The reward transaction `new_transaction('0', id, 1)` buffers. */
  function RewardTx(id: string): Tx {
    Tx(RewardSender, Text.Strip(id), RewardAmount)
  }

  /** The ledger after a mining attempt, and the forged block if there was one. */
  datatype Mined = Mined(ledger: Ledger, forged: Option<Block>)

  /** One `/mine` request for miner `id` with `proof`. The reward is buffered
      after sealing, so it is carried by the next block, not the forged one. */
  function Mine(c: Crypto, l: Ledger, timestamp: real, id: string, proof: int): (r: Mined)
    requires l.chain != []
    ensures r.forged.Some? <==> ValidProof(c, LastBlockString(c, l), proof)
    ensures r.forged.None? ==> r.ledger == l
    ensures r.forged.Some? ==> r.ledger.chain == l.chain + [r.forged.value]
    ensures r.forged.Some? ==> r.forged.value.index == |l.chain| + 1
    ensures r.forged.Some? ==> r.forged.value.transactions == l.pending
    ensures r.forged.Some? ==> r.forged.value.proof == proof
    ensures r.forged.Some? ==> r.forged.value.timestamp == timestamp
    ensures r.forged.Some? ==> r.forged.value.prevBlock == Digest(Hash(c, LastBlock(l)))
    ensures r.forged.Some? ==> r.ledger.pending == [Tx("0", Text.Strip(id), 1)]
  {
    if ValidProof(c, LastBlockString(c, l), proof) then
      var previousHash := Hash(c, LastBlock(l));
      var sealed := NewBlock(c, l, timestamp, proof, Some(Digest(previousHash))).value;
      Text.StripTrimmed(RewardSender);
      var admitted := NewTransaction(sealed.ledger, RewardSender, id, RewardAmount);
      Mined(admitted.ledger, Some(sealed.block))
    else
      Mined(l, None)
  }

  /** A mining step, accepted or rejected, keeps the ledger invariant. */
  lemma MinePreservesValid(c: Crypto, l: Ledger, timestamp: real, id: string, proof: int)
    requires Valid(c, l)
    ensures Valid(c, Mine(c, l, timestamp, id, proof).ledger)
  {
    var r := Mine(c, l, timestamp, id, proof);
    if r.forged.Some? {
      forall i | 0 < i < |r.ledger.chain|
        ensures r.ledger.chain[i].prevBlock == Digest(Hash(c, r.ledger.chain[i - 1]))
      {
        if i < |l.chain| {
          assert r.ledger.chain[i] == l.chain[i] && r.ledger.chain[i - 1] == l.chain[i - 1];
        }
      }
    }
  }

  /** The reward of one successful mining step is the whole content of the
      block forged by the next successful one. */
  lemma RewardLandsInNextBlock(c: Crypto, l: Ledger, t1: real, id1: string, p1: int, t2: real, id2: string, p2: int)
    requires l.chain != []
    requires ValidProof(c, LastBlockString(c, l), p1)
    ensures Mine(c, l, t1, id1, p1).forged.value.transactions == l.pending
    ensures var r2 := Mine(c, Mine(c, l, t1, id1, p1).ledger, t2, id2, p2);
      r2.forged.Some? ==> r2.forged.value.transactions == [RewardTx(id1)]
  {
  }

  /** The operations a node applies to its ledger: `new_transaction`,
      `new_block` without an explicit link, and a mining request. */
  datatype Op =
    | Submit(sender: string, recipient: string, amount: int)
    | Seal(timestamp: real, proof: int)
    | MineOp(timestamp: real, id: string, proof: int)

  function Step(c: Crypto, l: Ledger, op: Op): (l': Ledger)
    requires l.chain != []
    ensures |l'.chain| >= |l.chain|
    ensures l'.chain[..|l.chain|] == l.chain
  {
    match op
    case Submit(sender, recipient, amount) => NewTransaction(l, sender, recipient, amount).ledger
    case Seal(timestamp, proof) => NewBlock(c, l, timestamp, proof, None).value.ledger
    case MineOp(timestamp, id, proof) => Mine(c, l, timestamp, id, proof).ledger
  }

  /** The ledger after applying `ops` in order. */
  function Run(c: Crypto, l: Ledger, ops: seq<Op>): (l': Ledger)
    requires l.chain != []
    ensures |l'.chain| >= |l.chain|
    ensures l'.chain[..|l.chain|] == l.chain
    decreases |ops|
  {
    if ops == [] then l else Run(c, Step(c, l, ops[0]), ops[1..])
  }

  lemma StepPreservesValid(c: Crypto, l: Ledger, op: Op)
    requires Valid(c, l)
    ensures Valid(c, Step(c, l, op))
  {
    match op
    case Submit(sender, recipient, amount) =>
      NewTransactionPreservesValid(c, l, sender, recipient, amount);
    case Seal(timestamp, proof) =>
      NewBlockPreservesValid(c, l, timestamp, proof);
    case MineOp(timestamp, id, proof) =>
      MinePreservesValid(c, l, timestamp, id, proof);
  }

  lemma {:induction false} RunPreservesValid(c: Crypto, l: Ledger, ops: seq<Op>)
    requires Valid(c, l)
    ensures Valid(c, Run(c, l, ops))
    decreases |ops|
  {
    if ops != [] {
      StepPreservesValid(c, l, ops[0]);
      RunPreservesValid(c, Step(c, l, ops[0]), ops[1..]);
    }
  }

  /** Every ledger a node can reach from construction keeps the genesis block,
      contiguous indices and hash links. */
  lemma ReachableValid(c: Crypto, timestamp: real, ops: seq<Op>)
    ensures Valid(c, Run(c, Init(c, timestamp), ops))
  {
    InitValid(c, timestamp);
    RunPreservesValid(c, Init(c, timestamp), ops);
  }
}
