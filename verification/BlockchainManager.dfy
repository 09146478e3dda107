// BlockchainManager.go: the node's block tree, updated in place, proved against Ledgers.

module BlockchainManagers {
  import opened Wrappers
  import opened Messages
  import opened TransactionsSets
  import opened Ledgers
  import opened BlockNodes

  /** Every node of the map becomes the chain it stands on. */
  ghost function TreeOf(blocks: map<Digest, BlockNode>): (tree: map<Digest, Chain>)
    ensures tree.Keys == blocks.Keys
  {
    map h | h in blocks :: blocks[h].chain
  }

  /** The node is well formed and hangs from the root. */
  ghost predicate Rooted(n: BlockNode, root: BlockNode) {
    n.Valid() && n.Path()[0] == root
  }

  ghost predicate AllRooted(blocks: map<Digest, BlockNode>, root: BlockNode) {
    forall h :: h in blocks ==> Rooted(blocks[h], root)
  }

  lemma RootedChild(parent: BlockNode, child: BlockNode, root: BlockNode, k: nat)
    requires Rooted(parent, root) && child.Valid() && child.Path() == parent.Path() + [child] && k < |parent.Path()|
    ensures Rooted(child, root) && child.Path()[k] == parent.Path()[k] && k <= child.depth
  {
  }

  lemma NodeAdded(blocks: map<Digest, BlockNode>, h: Digest, n: BlockNode, root: BlockNode)
    requires AllRooted(blocks, root) && Rooted(n, root)
    ensures AllRooted(blocks[h := n], root)
    ensures TreeOf(blocks[h := n]) == TreeOf(blocks)[h := n.chain]
  {
  }

  /** Appending keeps the invariant, and changes nothing when the block is known already. */
  lemma AppendedAgrees(hash: Block -> Digest, u: iset<Block>, before: Ledger, block: Block, k: nat)
    requires Inv(hash, u, before) && block in u && block.prevHash in before.tree
    requires CommonPrefix(before.tail, before.tree[block.prevHash], k)
    ensures Inv(hash, u, Appended(hash, before, block, k))
    ensures hash(block) in before.tree ==> Appended(hash, before, block, k) == before
  {
    if hash(block) in before.tree {
      ReappendChangesNothing(hash, u, before, block, k);
    } else {
      AppendedInv(hash, u, before, block, k);
    }
  }

  /** The state during a pass over the buffer, when the hashes in todo are still to be looked up. */
  ghost function Drained(l: Ledger, todo: set<Digest>): Ledger {
    l.(waiting := l.waiting - (l.tree.Keys - todo))
  }

  /** Some buffered block, not counting those in todo, is in the tree itself. */
  ghost predicate SomeKnown(l: Ledger, todo: set<Digest>) {
    exists h :: h in l.waiting && h !in todo && h in l.tree
  }

  lemma DrainedInv(hash: Block -> Digest, u: iset<Block>, l: Ledger)
    requires Inv(hash, u, l)
    ensures Inv(hash, u, Drained(l, {}))
    ensures Drained(l, {}) == l.(waiting := l.waiting - l.tree.Keys)
    ensures Drained(Drained(l, {}), {}) == Drained(l, {})
    ensures !SomeKnown(Drained(l, {}), {})
  {
    assert l.tree.Keys - {} == l.tree.Keys;
  }

  /** Looking up one buffered block: if its own hash is known it leaves the buffer and is appended
      a second time, which changes nothing, wherever its branch forks off. */
  ghost predicate Drainable(hash: Block -> Digest, l: Ledger, todo: set<Digest>, h: Digest)
    requires h in l.waiting
  {
    if h in l.tree then
      && h in Drained(l, todo).waiting && l.waiting[h].prevHash in l.tree
      && forall k: nat {:trigger CommonPrefix(l.tail, l.tree[l.waiting[h].prevHash], k)} ::
           CommonPrefix(l.tail, l.tree[l.waiting[h].prevHash], k) ==>
           Appended(hash, Drained(l, todo).(waiting := Drained(l, todo).waiting - {h}), l.waiting[h], k)
           == Drained(l, todo - {h})
    else Drained(l, todo - {h}) == Drained(l, todo)
  }

  lemma DrainStep(hash: Block -> Digest, u: iset<Block>, l: Ledger, todo: set<Digest>, h: Digest)
    requires Inv(hash, u, l) && h in todo && todo <= l.waiting.Keys
    ensures SomeKnown(l, todo - {h}) <==> SomeKnown(l, todo) || h in l.tree
    ensures Drainable(hash, l, todo, h)
  {
    if h in l.tree {
      var b := l.waiting[h];
      var m := Drained(l, todo - {h});
      assert Drained(l, todo).waiting - {h} == m.waiting;
      KnownBlock(hash, u, l.tree, b);
      assert Inv(hash, u, m);
      forall k: nat | CommonPrefix(l.tail, l.tree[b.prevHash], k)
        ensures Appended(hash, m, b, k) == m
      {
        ReappendChangesNothing(hash, u, m, b, k);
      }
    } else {
      assert l.waiting - (l.tree.Keys - todo) == l.waiting - (l.tree.Keys - (todo - {h}));
    }
  }

  class BlockchainManager {
    const hash: Block -> Digest
    const pendingTx: TransactionsSet
    var tail: BlockNode                      // tail of the longest chain in the tree
    var blocks: map<Digest, BlockNode>       // block hash -> node in the tree
    var noParentBlocks: map<Digest, Block>   // blocks waiting for their parent

    ghost const u: iset<Block>               // the blocks of the run; the hash is collision-free on them
    ghost const root: BlockNode

    constructor (hash: Block -> Digest, ghost u: iset<Block>)
      requires Ideal(hash, u)
      ensures Valid() && fresh(pendingTx)
      ensures this.hash == hash && this.u == u && Abs() == INITIAL
    {
      var fake := new BlockNode.Fake();
      var empty := new TransactionsSet();
      this.hash := hash;
      this.u := u;
      this.root := fake;
      this.tail := fake;
      this.pendingTx := empty;
      this.blocks := map[ZERO := fake];
      this.noParentBlocks := map[];
      new;
      InitialInv(hash, u);
    }

    /** The state as a value. */
    ghost function Abs(): Ledger
      reads this, pendingTx
    {
      Ledger(TreeOf(blocks), tail.chain, pendingTx.s, noParentBlocks)
    }

    ghost predicate NodesOk()
      reads this
    {
      Rooted(tail, root) && AllRooted(blocks, root)
    }

    ghost predicate Valid()
      reads this, pendingTx
    {
      NodesOk() && Inv(hash, u, Abs())
    }

    /** Appends a block whose parent is known; k is the depth of the fork when there is a reorganisation. */
    method AppendToTheTree(block: Block) returns (ghost k: nat)
      requires NodesOk() && block.prevHash in blocks
      modifies this, pendingTx
      ensures NodesOk()
      ensures CommonPrefix(old(tail).chain, old(blocks)[block.prevHash].chain, k)
      ensures Reorganises(hash, old(Abs()), block) ==> IsForkDepth(old(tail), old(blocks)[block.prevHash], k)
      ensures Abs() == Appended(hash, old(Abs()), block, k)
    {
      k := 0;
      if block.prevHash == tail.GetBlockHash(hash) {
        tail := new BlockNode.Child(tail, block);
        NodeAdded(blocks, hash(block), tail, root);
        blocks := blocks[hash(block) := tail];
        pendingTx.Subtract(tail.txSet);
      } else {
        var parentNode := blocks[block.prevHash];
        if parentNode.depth < tail.depth {
          var node := new BlockNode.Child(parentNode, block);
          NodeAdded(blocks, hash(block), node, root);
          blocks := blocks[hash(block) := node];
        } else {
          k := SwitchFork(parentNode, block);
        }
      }
    }

    /** The third case of appendToTheTree: roll back to the fork and apply the longer branch. */
    method SwitchFork(parentNode: BlockNode, block: Block) returns (ghost k: nat)
      requires NodesOk() && Rooted(parentNode, root)
      modifies this, pendingTx
      ensures NodesOk() && noParentBlocks == old(noParentBlocks)
      ensures IsForkDepth(old(tail), parentNode, k)
      ensures CommonPrefix(old(tail).chain, parentNode.chain, k)
      ensures tail.chain == parentNode.chain + [block]
      ensures TreeOf(blocks) == TreeOf(old(blocks))[hash(block) := parentNode.chain + [block]]
      ensures pendingTx.s == old(pendingTx.s) + Claims(old(tail).chain[k..]) - ChainNames((parentNode.chain + [block])[k..])
    {
      var lsa;
      lsa, k := Rewind(pendingTx, tail, parentNode);
      var node := new BlockNode.Child(parentNode, block);
      RootedChild(parentNode, node, root, k);
      NodeAdded(blocks, hash(block), node, root);
      tail := node;
      blocks := blocks[hash(block) := node];
      ApplyHistory(pendingTx, node, lsa, k);
    }

    /** The body of the loop over the buffer: looks up the hash of the buffered block itself. */
    method LookUp(h: Digest, ghost before: Ledger, ghost todo: set<Digest>) returns (found: bool)
      requires NodesOk() && Abs() == Drained(before, todo)
      requires h in before.waiting && Drainable(hash, before, todo, h)
      modifies this, pendingTx
      ensures NodesOk() && Abs() == Drained(before, todo - {h})
      ensures found <==> h in before.tree
    {
      assert blocks.Keys == Abs().tree.Keys;
      if h !in blocks {
        return false;
      }
      var block := noParentBlocks[h];
      noParentBlocks := noParentBlocks - {h};
      ghost var k := AppendToTheTree(block);
      assert CommonPrefix(before.tail, before.tree[block.prevHash], k);
      return true;
    }

    /** One pass over the buffer. */
    method CheckPendingBlocks() returns (changed: bool)
      requires Valid()
      modifies this, pendingTx
      ensures Valid()
      ensures changed <==> SomeKnown(old(Abs()), {})
      ensures Abs() == Drained(old(Abs()), {})
    {
      changed := false;
      ghost var before := Abs();
      var todo := noParentBlocks.Keys;
      assert before == Drained(before, todo);
      while todo != {}
        invariant NodesOk() && todo <= before.waiting.Keys
        invariant Abs() == Drained(before, todo)
        invariant changed <==> SomeKnown(before, todo)
      {
        var h :| h in todo;
        DrainStep(hash, u, before, todo, h);
        var found := LookUp(h, before, todo);
        todo := todo - {h};
        changed := changed || found;
      }
      DrainedInv(hash, u, before);
    }

    /** Returns true for a new and correct block. */
    method AddBlock(block: Block) returns (added: bool, ghost k: nat)
      requires Valid() && block in u
      modifies this, pendingTx
      ensures Valid()
      ensures added <==> Acceptable(hash, old(Abs()), block)
      ensures added ==> CommonPrefix(old(Abs()).tail, old(Abs()).tree[block.prevHash], k)
      ensures added && Reorganises(hash, old(Abs()), block) ==> IsForkDepth(old(tail), old(blocks)[block.prevHash], k)
      ensures Abs() == Received(hash, old(Abs()), block, k)
    {
      k := 0;
      ghost var before := Abs();
      assert blocks.Keys == before.tree.Keys;
      if hash(block) in blocks {
        return false, k;
      }
      if !IsGood(hash(block)) {
        return false, k;
      }
      if block.prevHash !in blocks {
        noParentBlocks := noParentBlocks[hash(block) := block];
        return false, k;
      }
      k := AppendToTheTree(block);
      AppendedAgrees(hash, u, before, block, k);
      ghost var grown := Abs();
      DrainedInv(hash, u, grown);
      var changed := CheckPendingBlocks();
      while changed
        invariant Valid() && Abs() == Drained(grown, {})
        decreases changed
      {
        changed := CheckPendingBlocks();
      }
      added := true;
    }

    /** Returns true for a new transaction whose name is free. */
    method AddTransaction(tx: TxPublish) returns (added: bool)
      requires Valid()
      modifies pendingTx
      ensures Valid()
      ensures added <==> Claimable(old(Abs()), tx)
      ensures Abs() == Claimed(old(Abs()), tx)
    {
      if pendingTx.Contains(tx) {
        return false;
      }
      if pendingTx.ContainsFilename(tx.name) {
        return false;
      }
      var claimed := ClaimedInHistory(tail, tx.name);
      if claimed {
        return false;
      }
      added := pendingTx.Add(tx);
    }

    /** The locked part of DoMining, for a nonce found before: the block is built anew from the
        current tail and pending set, checked again and appended. */
    method TryMine(nonce: Digest) returns (mined: Option<Block>)
      requires Valid()
      requires forall txs :: Listing(txs, pendingTx.s) ==> Block(ChainHash(hash, tail.chain), nonce, txs) in u
      modifies this, pendingTx
      ensures Valid()
      ensures mined == None ==> Abs() == old(Abs())
      ensures mined == None && old(pendingTx.s) != map[] ==>
                exists txs :: Listing(txs, old(pendingTx.s)) && !IsGood(hash(Block(ChainHash(hash, old(tail).chain), nonce, txs)))
      ensures mined != None ==> Mineable(hash, old(Abs()), mined.value) && mined.value.nonce == nonce
      ensures mined != None ==> hash(mined.value) !in old(blocks)
      ensures mined != None ==> Abs() == Mined(hash, old(Abs()), mined.value)
    {
      ghost var before := Abs();
      var transactions := pendingTx.GetSliceCopy();
      var newBlock := Block(tail.GetBlockHash(hash), nonce, transactions);
      if !IsGood(hash(newBlock)) || pendingTx.IsEmpty() {
        return None;
      }
      MinedIsNew(hash, u, before, newBlock);
      MinedInv(hash, u, before, newBlock);
      Adopt(newBlock);
      return Some(newBlock);
    }

    /** The end of DoMining: the mined block becomes the tail and nothing is pending any more. */
    method Adopt(newBlock: Block)
      requires NodesOk()
      modifies this, pendingTx
      ensures NodesOk() && Abs() == Mined(hash, old(Abs()), newBlock)
    {
      tail := new BlockNode.Child(tail, newBlock);
      NodeAdded(blocks, hash(newBlock), tail, root);
      blocks := blocks[hash(newBlock) := tail];
      pendingTx.Clear();
    }
  }
}
