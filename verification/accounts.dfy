/**
 The balance replay of the `/account_info` handler: walk every transaction of
 every block in chain order, then every pending transaction, debiting the
 account when it is the sender and crediting it when it is the recipient.
 The list it returns holds every replayed transaction, whoever it concerns.
 */
module Accounts {
  import opened Results
  import opened Blockchain
  import opened Mining
  import Text

  /** The transactions of `blocks`, block by block, each in its own order. */
  function Flatten(blocks: seq<Block>): seq<Tx>
    decreases |blocks|
  {
    if blocks == [] then [] else Flatten(blocks[..|blocks| - 1]) + blocks[|blocks| - 1].transactions
  }

  /** Everything the replay visits: sealed transactions, then pending ones. */
  function Replayed(l: Ledger): seq<Tx> {
    Flatten(l.chain) + l.pending
  }

  /** The number of transactions held by `blocks`. */
  function TxCount(blocks: seq<Block>): nat
    decreases |blocks|
  {
    if blocks == [] then 0 else |blocks[0].transactions| + TxCount(blocks[1..])
  }

  /** The change one transaction makes to the balance of `id`. */
  function Delta(t: Tx, id: string): int {
    (if t.recipient == id then t.amount else 0) - (if t.sender == id then t.amount else 0)
  }

  /** The running balance the replay accumulates, one transaction at a time. */
  function Net(txs: seq<Tx>, id: string): int
    decreases |txs|
  {
    if txs == [] then 0 else Net(txs[..|txs| - 1], id) + Delta(txs[|txs| - 1], id)
  }

  /** The total amount of transactions paying `id`. */
  function Received(txs: seq<Tx>, id: string): int
    decreases |txs|
  {
    if txs == [] then 0 else (if txs[0].recipient == id then txs[0].amount else 0) + Received(txs[1..], id)
  }

  /** The total amount of transactions paid by `id`. */
  function Sent(txs: seq<Tx>, id: string): int
    decreases |txs|
  {
    if txs == [] then 0 else (if txs[0].sender == id then txs[0].amount else 0) + Sent(txs[1..], id)
  }

  lemma {:induction false} ReceivedAppend(txs: seq<Tx>, t: Tx, id: string)
    ensures Received(txs + [t], id) == Received(txs, id) + (if t.recipient == id then t.amount else 0)
    decreases |txs|
  {
    if txs != [] {
      assert (txs + [t])[1..] == txs[1..] + [t];
      ReceivedAppend(txs[1..], t, id);
    }
  }

  lemma {:induction false} SentAppend(txs: seq<Tx>, t: Tx, id: string)
    ensures Sent(txs + [t], id) == Sent(txs, id) + (if t.sender == id then t.amount else 0)
    decreases |txs|
  {
    if txs != [] {
      assert (txs + [t])[1..] == txs[1..] + [t];
      SentAppend(txs[1..], t, id);
    }
  }

  /** The replayed balance is what `id` received minus what it sent. */
  lemma {:induction false} NetIsReceivedMinusSent(txs: seq<Tx>, id: string)
    ensures Net(txs, id) == Received(txs, id) - Sent(txs, id)
    decreases |txs|
  {
    if txs != [] {
      var init := txs[..|txs| - 1];
      var t := txs[|txs| - 1];
      assert txs == init + [t];
      NetIsReceivedMinusSent(init, id);
      ReceivedAppend(init, t, id);
      SentAppend(init, t, id);
    }
  }

  /** Replaying `a` then `b` is replaying `a` and adding the replay of `b`. */
  lemma {:induction false} NetAppend(a: seq<Tx>, b: seq<Tx>, id: string)
    ensures Net(a + b, id) == Net(a, id) + Net(b, id)
    decreases |b|
  {
    if b == [] {
      assert a + b == a;
    } else {
      var init := b[..|b| - 1];
      assert (a + b)[..|a + b| - 1] == a + init;
      NetAppend(a, init, id);
    }
  }

  /** A transfer from an account to itself leaves every balance unchanged. */
  lemma SelfTransferNetsZero(txs: seq<Tx>, who: string, amount: int, id: string)
    ensures Net(txs + [Tx(who, who, amount)], id) == Net(txs, id)
  {
    assert (txs + [Tx(who, who, amount)])[..|txs|] == txs;
  }

  /** Flattening loses and invents no transactions. */
  lemma {:induction false} FlattenLength(blocks: seq<Block>)
    ensures |Flatten(blocks)| == TxCount(blocks)
    decreases |blocks|
  {
    if blocks != [] {
      var init := blocks[..|blocks| - 1];
      FlattenLength(init);
      TxCountSnoc(init, blocks[|blocks| - 1]);
      assert init + [blocks[|blocks| - 1]] == blocks;
    }
  }

  lemma {:induction false} TxCountSnoc(blocks: seq<Block>, b: Block)
    ensures TxCount(blocks + [b]) == TxCount(blocks) + |b.transactions|
    decreases |blocks|
  {
    if blocks != [] {
      assert (blocks + [b])[1..] == blocks[1..] + [b];
      TxCountSnoc(blocks[1..], b);
    }
  }

  lemma NetSnoc(txs: seq<Tx>, t: Tx, id: string)
    ensures Net(txs + [t], id) == Net(txs, id) + Delta(t, id)
  {
    assert (txs + [t])[..|txs|] == txs;
  }

  lemma FlattenSnoc(blocks: seq<Block>, i: nat)
    requires i < |blocks|
    ensures Flatten(blocks[..i + 1]) == Flatten(blocks[..i]) + blocks[i].transactions
  {
    assert blocks[..i + 1][..i] == blocks[..i];
  }

  /** The nested `_transaction` helper applied to each of `ts` in turn:
      extends the running balance and the list of visited transactions. */
  method ReplayAll(coins0: int, visited0: seq<Tx>, ts: seq<Tx>, id: string) returns (coins: int, visited: seq<Tx>)
    requires coins0 == Net(visited0, id)
    ensures visited == visited0 + ts
    ensures coins == Net(visited, id)
  {
    coins, visited := coins0, visited0;
    for k := 0 to |ts|
      invariant visited == visited0 + ts[..k]
      invariant coins == Net(visited, id)
    {
      var t := ts[k];
      if t.sender == id {
        coins := coins - t.amount;
      }
      if t.recipient == id {
        coins := coins + t.amount;
      }
      NetSnoc(visited, t, id);
      assert ts[..k + 1] == ts[..k] + [t];
      visited := visited + [t];
    }
    assert ts[..|ts|] == ts;
  }

  /** The replay of `account_info` for account `id`: the net balance and the
      list of every transaction visited, in chain order and then pending order. */
  method AccountInfo(l: Ledger, id: string) returns (coins: int, transactions: seq<Tx>)
    ensures transactions == Flatten(l.chain) + l.pending
    ensures |transactions| == TxCount(l.chain) + |l.pending|
    ensures coins == Received(transactions, id) - Sent(transactions, id)
  {
    coins := 0;
    transactions := [];
    for i := 0 to |l.chain|
      invariant transactions == Flatten(l.chain[..i])
      invariant coins == Net(transactions, id)
    {
      coins, transactions := ReplayAll(coins, transactions, l.chain[i].transactions, id);
      FlattenSnoc(l.chain, i);
    }
    assert l.chain[..|l.chain|] == l.chain;
    coins, transactions := ReplayAll(coins, transactions, l.pending, id);
    NetIsReceivedMinusSent(transactions, id);
    FlattenLength(l.chain);
  }

  /** Sealing the buffer moves transactions from pending into the chain
      without changing what the replay visits. */
  lemma NewBlockKeepsReplay(c: Crypto, l: Ledger, timestamp: real, proof: int, previousHash: Option<Link>)
    requires NewBlock(c, l, timestamp, proof, previousHash).Success?
    ensures Replayed(NewBlock(c, l, timestamp, proof, previousHash).value.ledger) == Replayed(l)
  {
    var l' := NewBlock(c, l, timestamp, proof, previousHash).value.ledger;
    assert l'.chain[..|l'.chain| - 1] == l.chain;
  }

  /** Buffering a transaction appends it to what the replay visits. */
  lemma NewTransactionExtendsReplay(l: Ledger, sender: string, recipient: string, amount: int)
    requires l.chain != []
    ensures Replayed(NewTransaction(l, sender, recipient, amount).ledger)
            == Replayed(l) + [Tx(Text.Strip(sender), Text.Strip(recipient), amount)]
  {
    var l' := NewTransaction(l, sender, recipient, amount).ledger;
    assert l'.pending == l.pending + [Tx(Text.Strip(sender), Text.Strip(recipient), amount)];
  }

  /** A successful mining step adds exactly the reward to the replay; a
      rejected one changes nothing. The miner gains one unit, unless it mines
      under the system sender's own name, where the reward nets to zero. */
  lemma MineCreditsMiner(c: Crypto, l: Ledger, timestamp: real, id: string, proof: int)
    requires l.chain != []
    ensures var r := Mine(c, l, timestamp, id, proof);
      r.forged.Some? ==> Replayed(r.ledger) == Replayed(l) + [RewardTx(id)]
    ensures var r := Mine(c, l, timestamp, id, proof);
      r.forged.None? ==> Replayed(r.ledger) == Replayed(l)
    ensures var r := Mine(c, l, timestamp, id, proof);
      r.forged.Some? ==>
        Net(Replayed(r.ledger), Text.Strip(id))
        == Net(Replayed(l), Text.Strip(id)) + (if Text.Strip(id) == RewardSender then 0 else RewardAmount)
  {
    var r := Mine(c, l, timestamp, id, proof);
    if r.forged.Some? {
      var sealedChain := l.chain + [r.forged.value];
      assert sealedChain[..|sealedChain| - 1] == l.chain;
      assert Flatten(sealedChain) == Flatten(l.chain) + l.pending;
      assert Replayed(r.ledger) == Replayed(l) + [RewardTx(id)];
      NetSnoc(Replayed(l), RewardTx(id), Text.Strip(id));
    }
  }

  /** The ledger after alice's transfer is submitted to a fresh node. */
  lemma AliceBobSubmitted(c: Crypto, t0: real)
    ensures NewTransaction(Init(c, t0), "alice", "bob", 10).ledger
            == Ledger([Block(1, t0, [], GenesisProof, GenesisLink)], [Tx("alice", "bob", 10)])
  {
    Text.StripTrimmed("alice");
    Text.StripTrimmed("bob");
  }

  /** The worked example: alice pays bob 10 on a fresh ledger, then bob mines
      the next block with a proof valid for the genesis block's canonical
      string, the last block at that point. The block holds only the transfer,
      the reward waits in the buffer, and bob's replayed balance is 11 over
      two transactions. */
  lemma AliceBobScenario(c: Crypto, t0: real, t1: real, proof: int)
    requires ValidProof(c, c.encode(Block(1, t0, [], GenesisProof, GenesisLink)), proof)
    ensures var r := Mine(c, NewTransaction(Init(c, t0), "alice", "bob", 10).ledger, t1, "bob", proof);
      && r.forged.Some?
      && r.forged.value.index == 2
      && r.forged.value.transactions == [Tx("alice", "bob", 10)]
      && r.ledger.pending == [Tx("0", "bob", 1)]
      && Replayed(r.ledger) == [Tx("alice", "bob", 10), Tx("0", "bob", 1)]
      && Net(Replayed(r.ledger), "bob") == 11
      && Net(Replayed(r.ledger), "alice") == -10
  {
    AliceBobSubmitted(c, t0);
    Text.StripTrimmed("bob");
    var l := Ledger([Block(1, t0, [], GenesisProof, GenesisLink)], [Tx("alice", "bob", 10)]);
    assert Flatten(l.chain) == [] by {
      assert l.chain[..0] == [];
    }
    MineCreditsMiner(c, l, t1, "bob", proof);
    NetSnoc([], Tx("alice", "bob", 10), "alice");
    NetSnoc([], Tx("alice", "bob", 10), "bob");
    NetSnoc([Tx("alice", "bob", 10)], Tx("0", "bob", 1), "alice");
  }
}
