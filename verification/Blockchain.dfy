/** A node's blockchain (the Rust version): blocks, proof of work, and the choice between rival chains. */
module Blockchain {
  import opened Basics

  datatype Transaction = Transaction(sender: string, recipient: string, amount: int)

  /** The timestamp is in milliseconds. */
  datatype Block = Block(
    index: int, timestamp: int, transactions: seq<Transaction>, proof: int, previousHash: string)

  type Chain = seq<Block>

  /** SHA-256 of a block's JSON text, and the "0000" test on the digest of two proofs and a hash: both abstract. */
  datatype Oracle = Oracle(hash: Block -> string, validProof: (int, int, string) -> bool)

  // ---------- Valid chains ----------

  predicate Follows(o: Oracle, last: Block, block: Block) {
    block.previousHash == o.hash(last) && o.validProof(last.proof, block.proof, o.hash(last))
  }

  predicate ValidChain(o: Oracle, chain: Chain) {
    forall k :: 0 < k < |chain| ==> Follows(o, chain[k - 1], chain[k])
  }

  /** A chain is valid when every block after the first has the hash of the one before it, and a proof that fits. */
  lemma ValidChainIff(o: Oracle, chain: Chain)
    ensures ValidChain(o, chain)
            <==> forall k :: 0 < k < |chain| ==>
                   && chain[k].previousHash == o.hash(chain[k - 1])
                   && o.validProof(chain[k - 1].proof, chain[k].proof, o.hash(chain[k - 1]))
  {
    if ValidChain(o, chain) {
      assert forall k :: 0 < k < |chain| ==> Follows(o, chain[k - 1], chain[k]);
    }
  }

  /** No two different blocks, one of each set, have the same hash. */
  ghost predicate NoCollision(o: Oracle, a: iset<Block>, b: iset<Block>) {
    forall x, y :: x in a && y in b && o.hash(x) == o.hash(y) ==> x == y
  }

  ghost predicate NeverOne(o: Oracle, a: iset<Block>) {
    forall x :: x in a ==> o.hash(x) != "1"
  }

  ghost function Blocks(chain: Chain): iset<Block> {
    iset x | x in chain
  }

  /** Two valid chains that share a block share its height and everything before it, unless blocks of theirs collide. */
  lemma {:induction false} SharedBlockSharesHistory(o: Oracle, a: Chain, b: Chain, i: nat, j: nat)
    requires NoCollision(o, Blocks(a), Blocks(b)) && NeverOne(o, Blocks(a)) && NeverOne(o, Blocks(b))
    requires ValidChain(o, a) && ValidChain(o, b)
    requires i < |a| && j < |b| && a[i] == b[j]
    requires a[0].previousHash == "1" && b[0].previousHash == "1"
    ensures i == j && a[..i + 1] == b[..j + 1]
    decreases i
  {
    if i > 0 {
      LinkHash(o, a, i);
    }
    if j > 0 {
      LinkHash(o, b, j);
    }
    if i > 0 && j > 0 {
      SharedBlockSharesHistory(o, a, b, i - 1, j - 1);
      assert a[..i + 1] == a[..i] + [a[i]] && b[..j + 1] == b[..j] + [b[j]];
    }
  }

  lemma LinkHash(o: Oracle, chain: Chain, k: nat)
    requires ValidChain(o, chain) && 0 < k < |chain|
    ensures chain[k].previousHash == o.hash(chain[k - 1])
  {
    assert Follows(o, chain[k - 1], chain[k]);
  }

  // ---------- A node as a value ----------

  /** `P` names a peer. */
  datatype Node<P> = Node(pending: seq<Transaction>, chain: Chain, nodes: set<P>)

  function BlockOf(n: Node, proof: int, previousHash: string, timestamp: int): Block {
    Block(|n.chain| + 1, timestamp, n.pending, proof, previousHash)
  }

  function Genesis(timestamp: int): Block {
    Block(1, timestamp, [], 100, "1")
  }

  function Transacted<P>(n: Node<P>, t: Transaction): Node<P> {
    n.(pending := n.pending + [t])
  }

  function Reward(id: string): Transaction {
    Transaction("0", id, 1)
  }

  /** The reward joins the pending transactions, all of which go into a block on top of the last one. */
  function Mined<P>(o: Oracle, n: Node<P>, id: string, proof: int, timestamp: int): Node<P>
    requires n.chain != []
  {
    var n' := Transacted(n, Reward(id));
    n'.(chain := n.chain + [BlockOf(n', proof, o.hash(n.chain[|n.chain| - 1]), timestamp)], pending := [])
  }

  // ---------- Choosing a chain ----------

  /** A peer's answer: another status, or the length it advertises and its chain. */
  datatype Response = NotOk | Full(length: int, chain: Chain)

  datatype Best = Best(maxLength: int, newChain: Option<Chain>)

  predicate Better(o: Oracle, r: Response, maxLength: int) {
    r.Full? && r.length > maxLength && ValidChain(o, r.chain)
  }

  function Consider(o: Oracle, best: Best, r: Response): Best {
    if Better(o, r, best.maxLength) then Best(r.length, Some(r.chain)) else best
  }

  /** The best after the first k responses. */
  function BestOf(o: Oracle, start: Best, responses: seq<Response>): Best
    decreases |responses|
  {
    if responses == [] then start
    else Consider(o, BestOf(o, start, responses[..|responses| - 1]), responses[|responses| - 1])
  }

  function Adopted<P>(o: Oracle, n: Node<P>, responses: seq<Response>): Node<P> {
    match BestOf(o, Best(|n.chain|, None), responses).newChain
    case None => n
    case Some(chain) => n.(chain := chain)
  }

  /** No response is valid and longer than this. */
  predicate NoneBetter(o: Oracle, responses: seq<Response>, length: int) {
    forall j :: 0 <= j < |responses| ==> !Better(o, responses[j], length)
  }

  /** Response k is valid, longer than the node's own chain, and the first of the longest. */
  predicate FirstLongest(o: Oracle, length: int, responses: seq<Response>, k: nat) {
    && k < |responses|
    && Better(o, responses[k], length)
    && NoneBetter(o, responses[..k], responses[k].length - 1)
    && NoneBetter(o, responses, responses[k].length)
  }

  /**
    * What is adopted is the first of the longest valid responses, when it is longer than the node's own chain;
    * nothing is adopted exactly when no valid response is longer.
    */
  lemma {:induction false} BestIsTheFirstLongest(o: Oracle, length: int, responses: seq<Response>) returns (k: nat)
    ensures
      var best := BestOf(o, Best(length, None), responses);
      && best.maxLength >= length
      && if best.newChain == None then best.maxLength == length && NoneBetter(o, responses, length)
         else FirstLongest(o, length, responses, k) && responses[k] == Full(best.maxLength, best.newChain.value)
    decreases |responses|
  {
    k := 0;
    if responses != [] {
      var front, last := responses[..|responses| - 1], responses[|responses| - 1];
      var before := BestOf(o, Best(length, None), front);
      k := BestIsTheFirstLongest(o, length, front);
      assert responses == front + [last];
      if Better(o, last, before.maxLength) {
        NoneBetterUpTo(o, front, before.maxLength, last.length - 1);
        NoneBetterUpTo(o, front, before.maxLength, last.length);
        k := |front|;
      } else if before.newChain.Some? {
        assert responses[..k] == front[..k];
      }
    }
  }

  /**
    * Whatever peers answer, honest or not: the chain stays, or becomes one that some peer answered, with the length
    * that the peer claimed for it, and every link and every proof of it holds. So one bad block keeps a chain out.
    */
  lemma AdoptedIsProved<P>(o: Oracle, n: Node<P>, responses: seq<Response>)
    ensures
      var chain := Adopted(o, n, responses).chain;
      || chain == n.chain
      || (&& (exists j :: 0 <= j < |responses| && responses[j].Full? && responses[j].length > |n.chain|
                          && responses[j].chain == chain)
          && forall k :: 0 < k < |chain| ==>
               && chain[k].previousHash == o.hash(chain[k - 1])
               && o.validProof(chain[k - 1].proof, chain[k].proof, o.hash(chain[k - 1])))
  {
    var j := BestIsTheFirstLongest(o, |n.chain|, responses);
    if Adopted(o, n, responses).chain != n.chain {
      assert responses[j].Full?;
      ValidChainIff(o, responses[j].chain);
    }
  }

  lemma FirstLongestIsOne(o: Oracle, length: int, responses: seq<Response>, j: nat, k: nat)
    requires FirstLongest(o, length, responses, j) && FirstLongest(o, length, responses, k)
    ensures j == k
  {
  }

  lemma NoneBetterUpTo(o: Oracle, responses: seq<Response>, length: int, longer: int)
    requires NoneBetter(o, responses, length) && length <= longer
    ensures NoneBetter(o, responses, longer)
  {
  }

  // ---------- The node ----------

  class Blockchain {
    const oracle: Oracle
    var currentTransactions: seq<Transaction>
    var chain: Chain
    var nodes: set<string>

    ghost function AsNode(): Node<string>
      reads this
    {
      Node(currentTransactions, chain, nodes)
    }

    constructor (oracle: Oracle, timestamp: int)
      ensures this.oracle == oracle && AsNode() == Node([], [Genesis(timestamp)], {})
    {
      this.oracle := oracle;
      currentTransactions, chain, nodes := [], [], {};
      new;
      var _ := NewBlock(100, "1", timestamp);
    }

    method NewBlock(proof: int, previousHash: string, timestamp: int) returns (block: Block)
      requires previousHash == "" ==> chain != []
      modifies this`currentTransactions, this`chain
      ensures
        var previous := if previousHash == "" then oracle.hash(old(chain)[|old(chain)| - 1]) else previousHash;
        block == BlockOf(old(AsNode()), proof, previous, timestamp)
      ensures AsNode() == old(AsNode()).(pending := [], chain := old(chain) + [block])
    {
      block := Block(|chain| + 1, timestamp, currentTransactions, proof,
                     if previousHash == "" then oracle.hash(chain[|chain| - 1]) else previousHash);
      currentTransactions := [];
      chain := chain + [block];
    }

    /** The index of the block that is to hold the transaction. */
    method NewTransaction(sender: string, recipient: string, amount: int) returns (index: int)
      requires chain != []
      modifies this`currentTransactions
      ensures AsNode() == Transacted(old(AsNode()), Transaction(sender, recipient, amount))
      ensures index == chain[|chain| - 1].index + 1
    {
      currentTransactions := currentTransactions + [Transaction(sender, recipient, amount)];
      index := LastBlock().index + 1;
    }

    /** The handler of POST /transactions/new: a request that lacks a value is refused and changes nothing. */
    method PostTransaction(sender: Option<string>, recipient: Option<string>, amount: Option<int>)
      returns (index: Option<int>)
      requires chain != []
      modifies this`currentTransactions
      ensures index.Some? <==> sender.Some? && recipient.Some? && amount.Some?
      ensures index.Some? ==>
        && index.value == chain[|chain| - 1].index + 1
        && AsNode() == Transacted(old(AsNode()), Transaction(sender.value, recipient.value, amount.value))
      ensures index.None? ==> AsNode() == old(AsNode())
    {
      if sender.None? || recipient.None? || amount.None? {
        return None;
      }
      var i := NewTransaction(sender.value, recipient.value, amount.value);
      return Some(i);
    }

    function LastBlock(): Block
      requires chain != []
      reads this
    {
      chain[|chain| - 1]
    }

    static method IsValidChain(oracle: Oracle, chain: Chain) returns (valid: bool)
      requires chain != []
      ensures valid <==> ValidChain(oracle, chain)
      ensures valid <==> forall k :: 0 < k < |chain| ==>
                && chain[k].previousHash == oracle.hash(chain[k - 1])
                && oracle.validProof(chain[k - 1].proof, chain[k].proof, oracle.hash(chain[k - 1]))
    {
      ValidChainIff(oracle, chain);
      var lastBlock := chain[0];
      var currentIndex := 1;
      while currentIndex < |chain|
        invariant 1 <= currentIndex <= |chain| && lastBlock == chain[currentIndex - 1]
        invariant ValidChain(oracle, chain[..currentIndex])
      {
        var block := chain[currentIndex];
        var lastBlockHash := oracle.hash(lastBlock);
        if block.previousHash != lastBlockHash {
          assert !Follows(oracle, chain[currentIndex - 1], chain[currentIndex]);
          return false;
        }
        if !oracle.validProof(lastBlock.proof, block.proof, lastBlockHash) {
          assert !Follows(oracle, chain[currentIndex - 1], chain[currentIndex]);
          return false;
        }
        lastBlock := block;
        currentIndex := currentIndex + 1;
      }
      assert chain[..currentIndex] == chain;
      return true;
    }

    /** The least proof that is valid after the block; `found` shows that there is one. */
    static method ProofOfWork(oracle: Oracle, lastBlock: Block, ghost found: nat) returns (proof: int)
      requires oracle.validProof(lastBlock.proof, found, oracle.hash(lastBlock))
      ensures IsLeastProof(oracle, lastBlock, proof)
    {
      var lastHash := oracle.hash(lastBlock);
      proof := 0;
      while !oracle.validProof(lastBlock.proof, proof, lastHash)
        invariant 0 <= proof <= found
        invariant forall p: int :: 0 <= p < proof ==> !oracle.validProof(lastBlock.proof, p, lastHash)
        decreases found - proof
      {
        proof := proof + 1;
      }
    }

    /** The handler of GET /mine, under the node's lock. */
    method Mine(id: string, timestamp: int, ghost found: nat) returns (block: Block)
      requires chain != [] && oracle.validProof(LastBlock().proof, found, oracle.hash(LastBlock()))
      modifies this`currentTransactions, this`chain
      ensures IsLeastProof(oracle, old(LastBlock()), block.proof)
      ensures AsNode() == Mined(oracle, old(AsNode()), id, block.proof, timestamp)
      ensures block == LastBlock()
    {
      var _ := NewTransaction("0", id, 1);
      var proof := ProofOfWork(oracle, LastBlock(), found);
      var previousHash := oracle.hash(LastBlock());
      block := NewBlock(proof, previousHash, timestamp);
    }

    /** The peers' answers, in the order in which the peers were asked. */
    method ResolveConflicts(responses: seq<Response>) returns (replaced: bool)
      requires forall k :: 0 <= k < |responses| ==>
        (responses[k].Full? && responses[k].length > |chain| ==> responses[k].chain != [])
      modifies this`chain
      ensures AsNode() == Adopted(oracle, old(AsNode()), responses)
      ensures replaced <==> !NoneBetter(oracle, responses, |old(chain)|)
      ensures chain == old(chain)
              || forall k :: 0 < k < |chain| ==>
                   && chain[k].previousHash == oracle.hash(chain[k - 1])
                   && oracle.validProof(chain[k - 1].proof, chain[k].proof, oracle.hash(chain[k - 1]))
    {
      var newChain: Option<Chain> := None;
      var maxLength := |chain|;
      ghost var start := Best(maxLength, None);
      for k := 0 to |responses|
        invariant AsNode() == old(AsNode()) && maxLength >= |chain|
        invariant Best(maxLength, newChain) == BestOf(oracle, start, responses[..k])
      {
        assert responses[..k + 1][..k] == responses[..k];
        var response := responses[k];
        if response.Full? && response.length > maxLength {
          var valid := IsValidChain(oracle, response.chain);
          if valid {
            maxLength, newChain := response.length, Some(response.chain);
          }
        }
      }
      assert responses[..|responses|] == responses;
      ghost var k := BestIsTheFirstLongest(oracle, |chain|, responses);
      AdoptedIsProved(oracle, AsNode(), responses);
      match newChain {
        case Some(better) =>
          chain := better;
          return true;
        case None =>
          return false;
      }
    }
  }

  ghost predicate IsLeastProof(o: Oracle, last: Block, proof: int) {
    && proof >= 0
    && o.validProof(last.proof, proof, o.hash(last))
    && forall p: int :: 0 <= p < proof ==> !o.validProof(last.proof, p, o.hash(last))
  }
}
