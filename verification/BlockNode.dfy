// BlockNode.go: the nodes of the block tree and the search for the fork point of two branches.

module BlockNodes {
  import opened Wrappers
  import opened Messages
  import opened TransactionsSets
  import opened Ledgers

  /** A node of the block tree. Nothing in it changes after construction. */
  class BlockNode {
    const depth: int
    const parent: BlockNode?
    const block: Option<Block>
    const txSet: map<Name, TxPublish>

    ghost const above: seq<BlockNode>  // the proper ancestors, root first
    ghost const chain: Chain           // the blocks from the root's first child to this node

    constructor Child(parent: BlockNode, block: Block)
      requires parent.Valid()
      ensures Valid() && !IsFake() && this.parent == parent && this.block == Some(block)
      ensures this.depth == parent.depth + 1 && this.txSet == TxMap(block.transactions)
      ensures Path() == parent.Path() + [this] && this.chain == parent.chain + [block]
    {
      this.parent := parent;
      this.depth := parent.depth + 1;
      this.block := Some(block);
      this.txSet := TxMap(block.transactions);
      this.above := parent.above + [parent];
      this.chain := parent.chain + [block];
      new;
      forall i | 0 <= i < |above| ensures AncestorOk(i) {
        if i < |parent.above| {
          assert parent.AncestorOk(i);
          assert above[..i] == parent.above[..i] && chain[..i] == parent.chain[..i];
        } else {
          assert above[..i] == parent.above && chain[..i] == parent.chain;
        }
      }
    }

    /** The father of fathers. */
    constructor Fake()
      ensures Valid() && IsFake() && Path() == [this] && chain == []
    {
      this.parent := null;
      this.depth := 0;
      this.block := None;
      this.txSet := map[];
      this.above := [];
      this.chain := [];
    }

    predicate IsFake() {
      depth == 0 && parent == null
    }

    /** The node's own fields agree with its parent's. */
    ghost predicate Local() {
      && depth == |above| == |chain|
      && if above == [] then parent == null && block == None else
           && parent == above[|above| - 1]
           && block == Some(chain[|chain| - 1])
           && txSet == TxMap(chain[|chain| - 1].transactions)
    }

    /** The i-th ancestor stands where this node's path says it stands. */
    ghost predicate AncestorOk(i: int)
      requires 0 <= i < |above| && |above| == |chain|
    {
      above[i].Local() && above[i].above == above[..i] && above[i].chain == chain[..i]
    }

    ghost predicate Valid() {
      && Local()
      && forall i :: 0 <= i < |above| ==> AncestorOk(i)
    }

    /** The nodes from the root down to this one; the node at index d has depth d. */
    ghost function Path(): seq<BlockNode> {
      above + [this]
    }

    function GetBlockHash(hash: Block -> Digest): (r: Digest)
      requires Valid()
      ensures r == ChainHash(hash, chain)
    {
      if IsFake() then ZERO else hash(block.value)
    }
  }

  lemma AncestorValid(n: BlockNode, d: nat)
    requires n.Valid() && d < n.depth
    ensures n.above[d].Valid()
  {
    var m := n.above[d];
    assert n.AncestorOk(d);
    forall i | 0 <= i < |m.above| ensures m.AncestorOk(i) {
      assert n.AncestorOk(i);
      assert m.above[..i] == n.above[..i];
      assert m.chain[..i] == n.chain[..i];
    }
  }

  /** What stands above an ancestor is the beginning of the node's own path. */
  lemma PathPrefix(n: BlockNode, d: nat)
    requires n.Valid() && d <= n.depth
    ensures n.Path()[d].Valid() && n.Path()[d].depth == d
    ensures n.Path()[d].Path() == n.Path()[..d + 1]
    ensures n.Path()[d].chain == n.chain[..d]
  {
    if d < n.depth {
      AncestorValid(n, d);
      assert n.AncestorOk(d);
    } else {
      assert n.chain == n.chain[..d];
    }
  }

  /** One step up a path: the parent is the node before, the set holds the block's transactions. */
  lemma PathStep(n: BlockNode, d: nat)
    requires n.Valid() && d <= n.depth
    ensures n.Path()[d].parent == if d == 0 then null else n.Path()[d - 1]
    ensures d > 0 ==> n.Path()[d].block == Some(n.chain[d - 1])
    ensures d > 0 ==> n.Path()[d].txSet == TxMap(n.chain[d - 1].transactions)
  {
    PathPrefix(n, d);
    var x := n.Path()[d];
    assert x.Local();
    assert x.above == n.Path()[..d];
  }

  /** What a walk towards the root sees at depth d: the parent is the node before, and the node's
      set accounts for the difference its block makes. */
  lemma Climb(n: BlockNode, d: nat)
    requires n.Valid() && 0 < d <= n.depth
    ensures !n.Path()[d].IsFake() && n.Path()[d].parent == n.Path()[d - 1]
    ensures Claims(n.chain[d - 1..]) == Claims(n.chain[d..]) + n.Path()[d].txSet
    ensures ChainNames(n.chain[d - 1..]) == ChainNames(n.chain[d..]) + n.Path()[d].txSet.Keys
  {
    PathStep(n, d);
    PathPrefix(n, d);
    var b := n.chain[d - 1];
    assert n.chain[d - 1..] == [b] + n.chain[d..];
    assert n.chain[d - 1..][1..] == n.chain[d..];
    ChainNamesAppend([b], n.chain[d..]);
    ChainNamesOne(b);
  }

  lemma PathDistinct(n: BlockNode, d: nat, e: nat)
    requires n.Valid() && d <= n.depth && e <= n.depth && n.Path()[d] == n.Path()[e]
    ensures d == e
  {
    PathPrefix(n, d);
    PathPrefix(n, e);
  }

  lemma UnionAssociative(a: map<Name, TxPublish>, b: map<Name, TxPublish>, c: map<Name, TxPublish>)
    ensures (a + b) + c == a + (b + c)
  {
  }

  lemma SubtractTwice(a: map<Name, TxPublish>, b: set<Name>, c: set<Name>)
    ensures (a - b) - c == a - (b + c)
  {
  }

  /** Takes the transactions of the blocks from a node up to the fork back into the pending set. */
  method RollBack(pendingTx: TransactionsSet, from: BlockNode, lsa: BlockNode, ghost k: nat)
    requires from.Valid() && k <= from.depth && from.Path()[k] == lsa
    modifies pendingTx
    ensures pendingTx.s == old(pendingTx.s) + Claims(from.chain[k..])
  {
    var curBlock := from;
    ghost var d: nat := from.depth;
    while curBlock != lsa
      invariant k <= d <= from.depth && curBlock == from.Path()[d]
      invariant pendingTx.s == old(pendingTx.s) + Claims(from.chain[d..])
      decreases d
    {
      Climb(from, d);
      UnionAssociative(old(pendingTx.s), Claims(from.chain[d..]), curBlock.txSet);
      pendingTx.Union(curBlock.txSet);
      curBlock := curBlock.parent;
      d := d - 1;
    }
    PathDistinct(from, d, k);
  }

  /** Removes the names claimed by the blocks from a node up to the fork from the pending set. */
  method ApplyHistory(pendingTx: TransactionsSet, from: BlockNode, lsa: BlockNode, ghost k: nat)
    requires from.Valid() && k <= from.depth && from.Path()[k] == lsa
    modifies pendingTx
    ensures pendingTx.s == old(pendingTx.s) - ChainNames(from.chain[k..])
  {
    var curBlock := from;
    ghost var d: nat := from.depth;
    while curBlock != lsa
      invariant k <= d <= from.depth && curBlock == from.Path()[d]
      invariant pendingTx.s == old(pendingTx.s) - ChainNames(from.chain[d..])
      decreases d
    {
      Climb(from, d);
      SubtractTwice(old(pendingTx.s), ChainNames(from.chain[d..]), curBlock.txSet.Keys);
      pendingTx.Subtract(curBlock.txSet);
      curBlock := curBlock.parent;
      d := d - 1;
    }
    PathDistinct(from, d, k);
  }

  /** The walk of AddTransaction: is a name claimed between a node and the root? */
  method ClaimedInHistory(from: BlockNode, name: Name) returns (claimed: bool)
    requires from.Valid()
    ensures claimed <==> name in ChainNames(from.chain)
  {
    var curBlock := from;
    ghost var d: nat := from.depth;
    while !curBlock.IsFake()
      invariant d <= from.depth && curBlock == from.Path()[d]
      invariant name !in ChainNames(from.chain[d..])
      decreases d
    {
      PathPrefix(from, d);
      Climb(from, d);
      ChainNamesSplit(from.chain, d - 1);
      if name in curBlock.txSet {
        return true;
      }
      curBlock := curBlock.parent;
      d := d - 1;
    }
    PathPrefix(from, d);
    assert from.chain[0..] == from.chain;
    return false;
  }

  /** d is the depth of the deepest node common to the two branches. */
  ghost predicate IsForkDepth(a: BlockNode, b: BlockNode, d: int) {
    && 0 <= d < |a.Path()| && d < |b.Path()|
    && a.Path()[d] == b.Path()[d]
    && forall e :: d < e < |a.Path()| && e < |b.Path()| ==> a.Path()[e] != b.Path()[e]
  }

  lemma ForkDepthSymmetricAndUnique(a: BlockNode, b: BlockNode, d: int, e: int)
    requires a.Valid() && b.Valid() && IsForkDepth(a, b, d) && IsForkDepth(b, a, e)
    ensures d == e && a.Path()[d] == b.Path()[e]
  {
  }

  /** Two branches agree on everything up to their fork, nodes and blocks alike. */
  lemma ForkDepthGivesCommonPrefix(a: BlockNode, b: BlockNode, d: nat)
    requires a.Valid() && b.Valid() && IsForkDepth(a, b, d)
    ensures a.Path()[..d + 1] == b.Path()[..d + 1]
    ensures CommonPrefix(a.chain, b.chain, d)
  {
    PathPrefix(a, d);
    PathPrefix(b, d);
  }

  /** Every common ancestor is at most as deep as the fork. */
  lemma ForkIsDeepest(a: BlockNode, b: BlockNode, d: int, x: BlockNode)
    requires a.Valid() && b.Valid() && IsForkDepth(a, b, d)
    requires x in a.Path() && x in b.Path()
    ensures x.depth <= d
  {
    var i :| 0 <= i < |a.Path()| && a.Path()[i] == x;
    var j :| 0 <= j < |b.Path()| && b.Path()[j] == x;
    PathPrefix(a, i);
    PathPrefix(b, j);
  }

  /** The two nodes belong to one tree. */
  ghost predicate SameTree(a: BlockNode, b: BlockNode) {
    a.Path()[0] == b.Path()[0]
  }

  /** The nodes of p form a branch from a root: each one's parent is the node before it. */
  ghost predicate LineAt(p: seq<BlockNode>, d: int)
    requires 0 <= d < |p|
  {
    p[d].depth == d && p[d].parent == if d == 0 then null else p[d - 1]
  }

  ghost predicate Line(p: seq<BlockNode>) {
    forall d {:trigger LineAt(p, d)} :: 0 <= d < |p| ==> LineAt(p, d)
  }

  lemma PathIsLine(n: BlockNode)
    requires n.Valid()
    ensures Line(n.Path())
  {
    forall d | 0 <= d < |n.Path()| ensures LineAt(n.Path(), d) {
      PathPrefix(n, d);
      PathStep(n, d);
    }
  }

  lemma ForkFound(a: BlockNode, b: BlockNode, d: nat)
    requires a.Valid() && b.Valid() && IsForkDepth(a, b, d)
    ensures SameTree(a, b)
  {
    ForkDepthGivesCommonPrefix(a, b, d);
    assert a.Path()[..d + 1][0] == b.Path()[..d + 1][0];
  }

  /** getLSA: the deepest common ancestor of two nodes of one tree, nil for nodes of two trees. */
  method GetLSA(a0: BlockNode, b0: BlockNode) returns (r: BlockNode?)
    requires a0.Valid() && b0.Valid()
    ensures r == null <==> !SameTree(a0, b0)
    ensures r != null ==> r.Valid() && IsForkDepth(a0, b0, r.depth) && r == a0.Path()[r.depth]
  {
    ghost var p, q;
    r, p, q := WalkUp(a0, b0);
    if r != null {
      PathPrefix(a0, r.depth);
      assert IsForkDepth(a0, b0, r.depth);
      ForkFound(a0, b0, r.depth);
    }
  }

  /** The two loops of getLSA; p is the longer path and q the shorter one. */
  method WalkUp(a0: BlockNode, b0: BlockNode) returns (r: BlockNode?, ghost p: seq<BlockNode>, ghost q: seq<BlockNode>)
    requires a0.Valid() && b0.Valid()
    ensures (p == a0.Path() && q == b0.Path()) || (p == b0.Path() && q == a0.Path())
    ensures r == null ==> p[0] != q[0]
    ensures r != null ==> 0 <= r.depth < |q| <= |p| && p[r.depth] == r == q[r.depth]
    ensures r != null ==> forall e :: r.depth < e < |q| ==> p[e] != q[e]
  {
    var a: BlockNode?, b: BlockNode? := a0, b0;
    if b.depth > a.depth {
      a, b := b, a;
    }
    PathIsLine(a);
    PathIsLine(b);
    p, q := a.Path(), b.Path();
    ghost var i: int := |p| - 1;
    while a != null && a.depth != b.depth
      invariant |q| - 1 <= i < |p| && a == p[i] && a.depth == i
      decreases i
    {
      assert LineAt(p, i) && LineAt(p, i - 1);
      a := a.parent;
      i := i - 1;
    }
    while a != null && b != null && a != b
      invariant -1 <= i < |q| <= |p|
      invariant a == (if i < 0 then null else p[i])
      invariant b == (if i < 0 then null else q[i])
      invariant forall e :: i < e < |q| ==> p[e] != q[e]
      decreases i
    {
      assert LineAt(p, i) && LineAt(q, i);
      a := a.parent;
      b := b.parent;
      i := i - 1;
    }
    if i >= 0 {
      assert LineAt(p, i);
    }
    return a, p, q;
  }

  /** Finds the fork of two branches and takes the first one's claims above it back into the pending set. */
  method Rewind(pendingTx: TransactionsSet, tail: BlockNode, parentNode: BlockNode) returns (lsa: BlockNode, ghost k: nat)
    requires tail.Valid() && parentNode.Valid() && SameTree(tail, parentNode)
    modifies pendingTx
    ensures IsForkDepth(tail, parentNode, k) && parentNode.Path()[k] == lsa
    ensures CommonPrefix(tail.chain, parentNode.chain, k)
    ensures pendingTx.s == old(pendingTx.s) + Claims(tail.chain[k..])
  {
    lsa := GetLSA(tail, parentNode);
    k := lsa.depth;
    ForkDepthGivesCommonPrefix(tail, parentNode, k);
    RollBack(pendingTx, tail, lsa, k);
  }
}
