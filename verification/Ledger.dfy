// What a node's blockchain manager knows, as a value: every block with the chain it stands on,
// the longest chain, the pending claims and the blocks waiting for a parent.

module Ledgers {
  import opened Messages
  import opened TransactionsSets

  /** The blocks from the first real block to the last one; the fake root is the empty chain. */
  type Chain = seq<Block>

  datatype Ledger = Ledger(
    tree: map<Digest, Chain>,
    tail: Chain,
    pending: map<Name, TxPublish>,
    waiting: map<Digest, Block>)

  const INITIAL := Ledger(map[ZERO := []], [], map[], map[])

  function BlockNames(b: Block): set<Name> {
    Names(b.transactions)
  }

  function ChainNames(c: Chain): set<Name> {
    set i, n | 0 <= i < |c| && n in BlockNames(c[i]) :: n
  }

  /** The claims of consecutive blocks; of two claims of a name the one nearer the root stands. */
  function Claims(c: Chain): (m: map<Name, TxPublish>)
    ensures forall n :: n in m ==> m[n].name == n
  {
    if c == [] then map[] else Claims(c[1..]) + TxMap(c[0].transactions)
  }

  function Last(c: seq<Block>): Block
    requires c != []
  {
    c[|c| - 1]
  }

  function Front(c: seq<Block>): seq<Block>
    requires c != []
  {
    c[..|c| - 1]
  }

  function ChainHash(hash: Block -> Digest, c: Chain): Digest {
    if c == [] then ZERO else hash(Last(c))
  }

  /** The two chains agree on their first k blocks. */
  ghost predicate CommonPrefix(a: Chain, b: Chain, k: nat) {
    k <= |a| && k <= |b| && a[..k] == b[..k]
  }

  // ---------- the operations ----------

  /** appendToTheTree: prolong the tail, add a short fork, or switch to a longer fork. In the last
      case the histories above depth k are rolled back and applied. */
  function Appended(hash: Block -> Digest, l: Ledger, b: Block, k: nat): Ledger
    requires b.prevHash in l.tree
    requires CommonPrefix(l.tail, l.tree[b.prevHash], k)
  {
    var parent := l.tree[b.prevHash];
    if b.prevHash == ChainHash(hash, l.tail) then
      l.(tree := l.tree[hash(b) := l.tail + [b]], tail := l.tail + [b], pending := l.pending - BlockNames(b))
    else if |parent| < |l.tail| then
      l.(tree := l.tree[hash(b) := parent + [b]])
    else
      l.(tree := l.tree[hash(b) := parent + [b]], tail := parent + [b],
         pending := l.pending + Claims(l.tail[k..]) - ChainNames((parent + [b])[k..]))
  }

  /** When AddBlock returns true. */
  predicate Acceptable(hash: Block -> Digest, l: Ledger, b: Block) {
    hash(b) !in l.tree && IsGood(hash(b)) && b.prevHash in l.tree
  }

  /** The block makes a chain off the tail the longest one. */
  predicate Reorganises(hash: Block -> Digest, l: Ledger, b: Block)
    requires b.prevHash in l.tree
  {
    b.prevHash != ChainHash(hash, l.tail) && |l.tree[b.prevHash]| >= |l.tail|
  }

  /** AddBlock; k is the depth of the fork. The drain that follows an append looks up the buffered
      blocks' own hashes, so all it ever does is forget blocks that are in the tree already. */
  function Received(hash: Block -> Digest, l: Ledger, b: Block, k: nat): Ledger
    requires Acceptable(hash, l, b) ==> CommonPrefix(l.tail, l.tree[b.prevHash], k)
  {
    if Acceptable(hash, l, b) then
      var grown := Appended(hash, l, b, k);
      grown.(waiting := grown.waiting - grown.tree.Keys)
    else if hash(b) !in l.tree && IsGood(hash(b)) then
      l.(waiting := l.waiting[hash(b) := b])
    else l
  }

  /** When AddTransaction returns true. */
  predicate Claimable(l: Ledger, tx: TxPublish) {
    tx.name !in l.pending && tx.name !in ChainNames(l.tail)
  }

  function Claimed(l: Ledger, tx: TxPublish): Ledger {
    if Claimable(l, tx) then l.(pending := l.pending[tx.name := tx]) else l
  }

  /** The block DoMining builds under the lock from the pending claims in some order. */
  ghost predicate Mineable(hash: Block -> Digest, l: Ledger, b: Block) {
    && b.prevHash == ChainHash(hash, l.tail)
    && Listing(b.transactions, l.pending)
    && IsGood(hash(b))
    && l.pending != map[]
  }

  function Mined(hash: Block -> Digest, l: Ledger, b: Block): Ledger {
    l.(tree := l.tree[hash(b) := l.tail + [b]], tail := l.tail + [b], pending := map[])
  }

  // ---------- the invariant ----------

  /** Every known block's parent is known and its chain is its parent's chain with the block
      appended, so that all chains start at the one fake root and depth is parent depth plus one. */
  ghost predicate TreeOk(hash: Block -> Digest, u: iset<Block>, tree: map<Digest, Chain>) {
    && ZERO in tree && tree[ZERO] == []
    && forall h {:trigger LinkOk(hash, u, tree, h)} :: h in tree && h != ZERO ==> LinkOk(hash, u, tree, h)
  }

  ghost predicate LinkOk(hash: Block -> Digest, u: iset<Block>, tree: map<Digest, Chain>, h: Digest)
    requires h in tree
  {
    && tree[h] != []
    && Last(tree[h]) in u
    && hash(Last(tree[h])) == h
    && Last(tree[h]).prevHash in tree
    && tree[Last(tree[h]).prevHash] == Front(tree[h])
  }

  /** The tail is a known chain and no known chain is longer. */
  ghost predicate TailOk(hash: Block -> Digest, l: Ledger) {
    && ChainHash(hash, l.tail) in l.tree
    && l.tree[ChainHash(hash, l.tail)] == l.tail
    && forall h :: h in l.tree ==> |l.tree[h]| <= |l.tail|
  }

  ghost predicate WaitingOk(hash: Block -> Digest, u: iset<Block>, waiting: map<Digest, Block>) {
    forall h :: h in waiting ==> hash(waiting[h]) == h && waiting[h] in u
  }

  /** The universe u holds the blocks of the run under consideration. */
  ghost predicate Ideal(hash: Block -> Digest, u: iset<Block>) {
    CollisionFree(hash, u) && forall b :: b in u ==> hash(b) != ZERO
  }

  ghost predicate Inv(hash: Block -> Digest, u: iset<Block>, l: Ledger) {
    && Ideal(hash, u)
    && TreeOk(hash, u, l.tree)
    && TailOk(hash, l)
    && WaitingOk(hash, u, l.waiting)
    && WellKeyed(l.pending)
  }

  lemma InitialInv(hash: Block -> Digest, u: iset<Block>)
    requires Ideal(hash, u)
    ensures Inv(hash, u, INITIAL)
  {
  }

  /** A child of a known block with a new hash keeps the tree well formed. */
  lemma GrownTreeOk(hash: Block -> Digest, u: iset<Block>, tree: map<Digest, Chain>, b: Block)
    requires Ideal(hash, u) && b in u && TreeOk(hash, u, tree)
    requires hash(b) !in tree && b.prevHash in tree
    ensures TreeOk(hash, u, tree[hash(b) := tree[b.prevHash] + [b]])
  {
    var grown := tree[hash(b) := tree[b.prevHash] + [b]];
    assert (tree[b.prevHash] + [b])[..|tree[b.prevHash]|] == tree[b.prevHash];
    forall h | h in grown && h != ZERO ensures LinkOk(hash, u, grown, h) {
      if h != hash(b) {
        assert LinkOk(hash, u, tree, h);
      }
    }
  }

  /** A block whose hash is known is the block known by it, and its parent is known. */
  lemma KnownBlock(hash: Block -> Digest, u: iset<Block>, tree: map<Digest, Chain>, b: Block)
    requires Ideal(hash, u) && b in u && TreeOk(hash, u, tree) && hash(b) in tree
    ensures b.prevHash in tree && tree[hash(b)] == tree[b.prevHash] + [b]
  {
    assert LinkOk(hash, u, tree, hash(b));
    var c := tree[hash(b)];
    assert c == c[..|c| - 1] + [c[|c| - 1]];
  }

  /** Appending a block a second time, as the drain of the waiting buffer does, changes nothing. */
  lemma ReappendChangesNothing(hash: Block -> Digest, u: iset<Block>, l: Ledger, b: Block, k: nat)
    requires Inv(hash, u, l) && b in u && hash(b) in l.tree
    requires b.prevHash in l.tree && CommonPrefix(l.tail, l.tree[b.prevHash], k)
    ensures Appended(hash, l, b, k) == l
  {
    KnownBlock(hash, u, l.tree, b);
    assert |l.tree[b.prevHash]| < |l.tail|;
    assert l.tree[hash(b) := l.tree[hash(b)]] == l.tree;
  }

  /** A freshly mined child of the tail cannot be known already: its chain would be too long. */
  lemma MinedIsNew(hash: Block -> Digest, u: iset<Block>, l: Ledger, b: Block)
    requires Inv(hash, u, l) && b in u && b.prevHash == ChainHash(hash, l.tail)
    ensures hash(b) !in l.tree
  {
    if hash(b) in l.tree {
      KnownBlock(hash, u, l.tree, b);
    }
  }

  /** A known chain with a block appended is a maximal tail when the chain was one of the longest. */
  lemma LongerTailOk(hash: Block -> Digest, l: Ledger, m: Ledger, b: Block)
    requires TailOk(hash, l) && b.prevHash in l.tree && |l.tail| <= |l.tree[b.prevHash]|
    requires m.tail == l.tree[b.prevHash] + [b] && m.tree == l.tree[hash(b) := m.tail]
    ensures TailOk(hash, m)
  {
    assert Last(m.tail) == b;
    forall h | h in m.tree ensures |m.tree[h]| <= |m.tail| {
      if h != hash(b) {
        assert h in l.tree;
      }
    }
  }

  lemma AppendedInv(hash: Block -> Digest, u: iset<Block>, l: Ledger, b: Block, k: nat)
    requires Inv(hash, u, l) && b in u && hash(b) !in l.tree
    requires b.prevHash in l.tree && CommonPrefix(l.tail, l.tree[b.prevHash], k)
    ensures Inv(hash, u, Appended(hash, l, b, k))
    ensures |l.tail| <= |Appended(hash, l, b, k).tail|
  {
    GrownTreeOk(hash, u, l.tree, b);
    var m := Appended(hash, l, b, k);
    var parent := l.tree[b.prevHash];
    if b.prevHash == ChainHash(hash, l.tail) {
      LongerTailOk(hash, l, m, b);
    } else if |parent| >= |l.tail| {
      LongerTailOk(hash, l, m, b);
    } else {
      assert m.tree[ChainHash(hash, l.tail)] == l.tail;
    }
  }

  /** The block-tree invariant holds after every AddBlock, whatever the block, and the tail's depth
      does not decrease. */
  lemma ReceivedInv(hash: Block -> Digest, u: iset<Block>, l: Ledger, b: Block, k: nat)
    requires Inv(hash, u, l) && b in u
    requires Acceptable(hash, l, b) ==> CommonPrefix(l.tail, l.tree[b.prevHash], k)
    ensures Inv(hash, u, Received(hash, l, b, k))
    ensures |l.tail| <= |Received(hash, l, b, k).tail|
  {
    if Acceptable(hash, l, b) {
      AppendedInv(hash, u, l, b, k);
    }
  }

  lemma MinedInv(hash: Block -> Digest, u: iset<Block>, l: Ledger, b: Block)
    requires Inv(hash, u, l) && b in u && b.prevHash == ChainHash(hash, l.tail)
    ensures Inv(hash, u, Mined(hash, l, b))
  {
    MinedIsNew(hash, u, l, b);
    GrownTreeOk(hash, u, l.tree, b);
    LongerTailOk(hash, l, Mined(hash, l, b), b);
  }

  // ---------- names on chains ----------

  lemma ChainNamesAppend(a: Chain, b: Chain)
    ensures ChainNames(a + b) == ChainNames(a) + ChainNames(b)
  {
    forall n ensures n in ChainNames(a + b) <==> n in ChainNames(a) + ChainNames(b) {
      if n in ChainNames(a) {
        var i :| 0 <= i < |a| && n in BlockNames(a[i]);
        assert (a + b)[i] == a[i];
      }
      if n in ChainNames(b) {
        var i :| 0 <= i < |b| && n in BlockNames(b[i]);
        assert (a + b)[|a| + i] == b[i];
      }
    }
  }

  lemma ChainNamesSplit(c: Chain, k: nat)
    requires k <= |c|
    ensures ChainNames(c) == ChainNames(c[..k]) + ChainNames(c[k..])
  {
    ChainNamesAppend(c[..k], c[k..]);
    assert c == c[..k] + c[k..];
  }

  lemma ChainNamesOne(b: Block)
    ensures ChainNames([b]) == BlockNames(b)
  {
    assert [b][0] == b;
  }

  lemma {:induction false} ClaimsKeys(c: Chain)
    ensures Claims(c).Keys == ChainNames(c)
  {
    if c != [] {
      ClaimsKeys(c[1..]);
      assert c == [c[0]] + c[1..];
      ChainNamesAppend([c[0]], c[1..]);
      ChainNamesOne(c[0]);
    }
  }

  // ---------- conservation of claims ----------

  /** The names a node considers taken: on its official chain or pending. */
  function Reserved(l: Ledger): set<Name> {
    ChainNames(l.tail) + l.pending.Keys
  }

  /** The blocks a step applies to the official history: none for a short fork. */
  function NewBranch(hash: Block -> Digest, l: Ledger, b: Block, k: nat): Chain
    requires b.prevHash in l.tree
    requires CommonPrefix(l.tail, l.tree[b.prevHash], k)
  {
    if b.prevHash == ChainHash(hash, l.tail) then [b]
    else if |l.tree[b.prevHash]| < |l.tail| then []
    else (l.tree[b.prevHash] + [b])[k..]
  }

  /** Whatever blocks arrive, no claim is lost: what is reserved afterwards is what was reserved
      before together with the names of the newly applied branch. */
  lemma AppendConservesClaims(hash: Block -> Digest, l: Ledger, b: Block, k: nat)
    requires b.prevHash in l.tree && CommonPrefix(l.tail, l.tree[b.prevHash], k)
    ensures Reserved(Appended(hash, l, b, k)) == Reserved(l) + ChainNames(NewBranch(hash, l, b, k))
  {
    var parent := l.tree[b.prevHash];
    if b.prevHash == ChainHash(hash, l.tail) {
      ChainNamesAppend(l.tail, [b]);
      ChainNamesOne(b);
    } else if |parent| >= |l.tail| {
      ChainNamesSplit(l.tail, k);
      ChainNamesSplit(parent + [b], k);
      assert (parent + [b])[..k] == parent[..k];
      ClaimsKeys(l.tail[k..]);
    }
  }

  lemma MinedConservesClaims(hash: Block -> Digest, l: Ledger, b: Block)
    requires Mineable(hash, l, b) && WellKeyed(l.pending)
    ensures Reserved(Mined(hash, l, b)) == Reserved(l)
  {
    ListingNames(b.transactions, l.pending);
    ChainNamesAppend(l.tail, [b]);
    ChainNamesOne(b);
  }

  // ---------- runs of one node ----------

  datatype Event = Deliver(block: Block, k: nat) | Claim(tx: TxPublish) | Mine(mined: Block)

  ghost predicate Enabled(hash: Block -> Digest, u: iset<Block>, l: Ledger, e: Event) {
    match e
    case Deliver(b, k) => b in u && (Acceptable(hash, l, b) ==> CommonPrefix(l.tail, l.tree[b.prevHash], k))
    case Claim(tx) => true
    case Mine(b) => b in u && Mineable(hash, l, b)
  }

  function Next(hash: Block -> Digest, l: Ledger, e: Event): Ledger
    requires e.Deliver? && Acceptable(hash, l, e.block) ==> CommonPrefix(l.tail, l.tree[e.block.prevHash], e.k)
  {
    match e
    case Deliver(b, k) => Received(hash, l, b, k)
    case Claim(tx) => Claimed(l, tx)
    case Mine(b) => Mined(hash, l, b)
  }

  /** states[i + 1] comes from states[i] by events[i]; blocks may be of anybody's making. */
  ghost predicate IsRun(hash: Block -> Digest, u: iset<Block>, states: seq<Ledger>, events: seq<Event>) {
    && |states| == |events| + 1
    && states[0] == INITIAL
    && forall i :: 0 <= i < |events| ==>
         Enabled(hash, u, states[i], events[i]) && states[i + 1] == Next(hash, states[i], events[i])
  }

  /** One step of any kind keeps the invariant, the tail's depth, the known blocks and every claim. */
  lemma StepMonotone(hash: Block -> Digest, u: iset<Block>, l: Ledger, e: Event)
    requires Inv(hash, u, l) && Enabled(hash, u, l, e)
    ensures Inv(hash, u, Next(hash, l, e))
    ensures |l.tail| <= |Next(hash, l, e).tail|
    ensures l.tree.Keys <= Next(hash, l, e).tree.Keys
    ensures Reserved(l) <= Reserved(Next(hash, l, e))
  {
    match e
    case Deliver(b, k) =>
      ReceivedInv(hash, u, l, b, k);
      if Acceptable(hash, l, b) {
        AppendConservesClaims(hash, l, b, k);
      }
    case Claim(tx) =>
    case Mine(b) =>
      MinedInv(hash, u, l, b);
      MinedConservesClaims(hash, l, b);
  }

  /** A transaction is accepted exactly when its name is free. */
  lemma ClaimableIffFree(l: Ledger, tx: TxPublish)
    ensures Claimable(l, tx) <==> tx.name !in Reserved(l)
  {
  }

  /** The names a step adds to those reserved. */
  function NewNames(hash: Block -> Digest, l: Ledger, e: Event): set<Name>
    requires e.Deliver? && Acceptable(hash, l, e.block) ==> CommonPrefix(l.tail, l.tree[e.block.prevHash], e.k)
  {
    match e
    case Deliver(b, k) => if Acceptable(hash, l, b) then ChainNames(NewBranch(hash, l, b, k)) else {}
    case Claim(tx) => {tx.name}
    case Mine(_) => {}
  }

  /** What is reserved after a step is what was reserved before and what the step adds: a claimed name, be
      it accepted or taken already, or the names of a newly applied branch; nothing else and nothing less. */
  lemma StepReserves(hash: Block -> Digest, u: iset<Block>, l: Ledger, e: Event)
    requires Inv(hash, u, l) && Enabled(hash, u, l, e)
    ensures Reserved(Next(hash, l, e)) == Reserved(l) + NewNames(hash, l, e)
  {
    match e
    case Deliver(b, k) =>
      if Acceptable(hash, l, b) {
        AppendConservesClaims(hash, l, b, k);
      }
    case Claim(tx) => ClaimableIffFree(l, tx);
    case Mine(b) => MinedConservesClaims(hash, l, b);
  }

  lemma NoKeys(m: map<Name, TxPublish>)
    ensures m.Keys == {} ==> m == map[]
  {
  }

  /** On every run a mined block claims exactly the pending names, and at least one. */
  lemma MinedClaimsPending(hash: Block -> Digest, u: iset<Block>, states: seq<Ledger>, events: seq<Event>, i: nat)
    requires Ideal(hash, u) && IsRun(hash, u, states, events) && i < |events| && events[i].Mine?
    ensures BlockNames(events[i].mined) == states[i].pending.Keys && BlockNames(events[i].mined) != {}
    ensures states[i + 1].pending == map[] && states[i + 1].tail == states[i].tail + [events[i].mined]
  {
    RunInv(hash, u, states, events, i);
    assert Enabled(hash, u, states[i], events[i]) && states[i + 1] == Next(hash, states[i], events[i]);
    ListingNames(events[i].mined.transactions, states[i].pending);
    NoKeys(states[i].pending);
  }

  lemma RunStep(hash: Block -> Digest, u: iset<Block>, states: seq<Ledger>, events: seq<Event>, i: nat)
    requires IsRun(hash, u, states, events) && i < |events| && Inv(hash, u, states[i])
    ensures Inv(hash, u, states[i + 1])
    ensures |states[i].tail| <= |states[i + 1].tail|
    ensures states[i].tree.Keys <= states[i + 1].tree.Keys
    ensures Reserved(states[i]) <= Reserved(states[i + 1])
  {
    StepMonotone(hash, u, states[i], events[i]);
  }

  lemma {:induction false} RunInv(hash: Block -> Digest, u: iset<Block>, states: seq<Ledger>, events: seq<Event>, i: nat)
    requires Ideal(hash, u) && IsRun(hash, u, states, events) && i < |states|
    ensures Inv(hash, u, states[i])
  {
    if i == 0 {
      InitialInv(hash, u);
    } else {
      RunInv(hash, u, states, events, i - 1);
      RunStep(hash, u, states, events, i - 1);
    }
  }

  /** On every run the tail's depth never decreases, a known block stays known and a name once
      reserved stays reserved. */
  lemma {:induction false} RunMonotone(hash: Block -> Digest, u: iset<Block>, states: seq<Ledger>, events: seq<Event>, i: nat, j: nat)
    requires Ideal(hash, u) && IsRun(hash, u, states, events) && i <= j < |states|
    ensures |states[i].tail| <= |states[j].tail|
    ensures states[i].tree.Keys <= states[j].tree.Keys
    ensures Reserved(states[i]) <= Reserved(states[j])
  {
    if i < j {
      RunMonotone(hash, u, states, events, i, j - 1);
      RunInv(hash, u, states, events, j - 1);
      RunStep(hash, u, states, events, j - 1);
    }
  }

  /** A name accepted in one step is reserved afterwards; a block accepted or mined is known. */
  lemma AcceptedStays(hash: Block -> Digest, l: Ledger, e: Event)
    requires e.Deliver? && Acceptable(hash, l, e.block) ==> CommonPrefix(l.tail, l.tree[e.block.prevHash], e.k)
    ensures e.Claim? && Claimable(l, e.tx) ==> e.tx.name in Reserved(Next(hash, l, e))
    ensures e.Deliver? && Acceptable(hash, l, e.block) ==> hash(e.block) in Next(hash, l, e).tree
    ensures e.Mine? ==> hash(e.mined) in Next(hash, l, e).tree
  {
  }

  /** Flooding: a node sends a transaction or a block on only when it accepts it. On every run it
      accepts a given filename at most once and a given block hash at most once; nor does it accept
      a block it has mined. */
  lemma FloodAtMostOnce(hash: Block -> Digest, u: iset<Block>, states: seq<Ledger>, events: seq<Event>, i: nat, j: nat)
    requires Ideal(hash, u) && IsRun(hash, u, states, events) && i < j < |events|
    ensures events[i].Claim? && events[j].Claim? && events[i].tx.name == events[j].tx.name ==>
              !(Claimable(states[i], events[i].tx) && Claimable(states[j], events[j].tx))
    ensures events[i].Deliver? && events[j].Deliver? && hash(events[i].block) == hash(events[j].block) ==>
              !(Acceptable(hash, states[i], events[i].block) && Acceptable(hash, states[j], events[j].block))
    ensures events[i].Mine? && events[j].Deliver? && hash(events[i].mined) == hash(events[j].block) ==>
              !Acceptable(hash, states[j], events[j].block)
  {
    assert Enabled(hash, u, states[i], events[i]) && states[i + 1] == Next(hash, states[i], events[i]);
    AcceptedStays(hash, states[i], events[i]);
    RunMonotone(hash, u, states, events, i + 1, j);
  }

  // ---------- how often an item is sent on ----------

  /** What is flooded: the transaction claiming a name, or the block with a hash. */
  datatype Item = TxItem(name: Name) | BlockItem(h: Digest)

  /** The step makes the node send the item to all its peers: a claim accepted, a block accepted or
      mined. The hop limit may keep it from doing so. */
  predicate Floods(hash: Block -> Digest, l: Ledger, e: Event, item: Item) {
    match e
    case Claim(tx) => item == TxItem(tx.name) && Claimable(l, tx)
    case Deliver(b, _) => item == BlockItem(hash(b)) && Acceptable(hash, l, b)
    case Mine(b) => item == BlockItem(hash(b))
  }

  /** The number of packets with the item the node has sent in the first n steps, with peers[i]
      neighbours at step i. */
  function Sends(hash: Block -> Digest, states: seq<Ledger>, events: seq<Event>, peers: seq<nat>, item: Item, n: nat): nat
    requires n <= |events| && |states| == |events| + 1 && |peers| == |events|
  {
    if n == 0 then 0
    else Sends(hash, states, events, peers, item, n - 1)
         + if Floods(hash, states[n - 1], events[n - 1], item) then peers[n - 1] else 0
  }

  /** A node sends an item on exactly in the step in which it becomes new there: a block when it gets
      known, a transaction when its claim gets reserved. */
  lemma FloodsIffNew(hash: Block -> Digest, u: iset<Block>, l: Ledger, e: Event, item: Item)
    requires Inv(hash, u, l) && Enabled(hash, u, l, e)
    ensures item.BlockItem? ==>
              (Floods(hash, l, e, item) <==> item.h !in l.tree && item.h in Next(hash, l, e).tree)
    ensures item.TxItem? ==>
              (Floods(hash, l, e, item) <==>
               e.Claim? && item.name !in Reserved(l) && item.name in Reserved(Next(hash, l, e)))
  {
    if e.Mine? {
      MinedIsNew(hash, u, l, e.mined);
    }
  }

  lemma FloodsOnce(hash: Block -> Digest, u: iset<Block>, states: seq<Ledger>, events: seq<Event>, item: Item, i: nat, j: nat)
    requires Ideal(hash, u) && IsRun(hash, u, states, events) && i < j < |events|
    requires Floods(hash, states[i], events[i], item)
    ensures !Floods(hash, states[j], events[j], item)
  {
    FloodAtMostOnce(hash, u, states, events, i, j);
    if events[j].Mine? && item == BlockItem(hash(events[j].mined)) {
      assert Enabled(hash, u, states[i], events[i]) && states[i + 1] == Next(hash, states[i], events[i]);
      AcceptedStays(hash, states[i], events[i]);
      RunMonotone(hash, u, states, events, i + 1, j);
      RunInv(hash, u, states, events, j);
      assert Enabled(hash, u, states[j], events[j]);
      MinedIsNew(hash, u, states[j], events[j].mined);
    }
  }

  lemma {:induction false} NoSends(hash: Block -> Digest, states: seq<Ledger>, events: seq<Event>, peers: seq<nat>, item: Item, n: nat)
    requires n <= |events| && |states| == |events| + 1 && |peers| == |events|
    requires forall i :: 0 <= i < n ==> !Floods(hash, states[i], events[i], item)
    ensures Sends(hash, states, events, peers, item, n) == 0
  {
    if n > 0 {
      NoSends(hash, states, events, peers, item, n - 1);
    }
  }

  /** Over any run a node sends one item at most once to each peer: the packets are at most as many
      as it ever has peers. */
  lemma {:induction false} SendsBounded(
    hash: Block -> Digest, u: iset<Block>, states: seq<Ledger>, events: seq<Event>, peers: seq<nat>, item: Item, n: nat, most: nat)
    requires Ideal(hash, u) && IsRun(hash, u, states, events) && |peers| == |events| && n <= |events|
    requires forall i :: 0 <= i < |peers| ==> peers[i] <= most
    ensures Sends(hash, states, events, peers, item, n) <= most
  {
    if n > 0 {
      if Floods(hash, states[n - 1], events[n - 1], item) {
        forall i | 0 <= i < n - 1 ensures !Floods(hash, states[i], events[i], item) {
          if Floods(hash, states[i], events[i], item) {
            FloodsOnce(hash, u, states, events, item, i, n - 1);
          }
        }
        NoSends(hash, states, events, peers, item, n - 1);
      } else {
        SendsBounded(hash, u, states, events, peers, item, n - 1, most);
      }
    }
  }

  /** The block gets known in step i. */
  predicate GetsKnown(l: Ledger, m: Ledger, h: Digest) {
    h !in l.tree && h in m.tree
  }

  lemma SendsWhenNew(
    hash: Block -> Digest, u: iset<Block>, states: seq<Ledger>, events: seq<Event>, peers: seq<nat>, h: Digest, n: nat)
    requires Ideal(hash, u) && IsRun(hash, u, states, events) && |peers| == |events| && n < |events|
    ensures Sends(hash, states, events, peers, BlockItem(h), n + 1)
            == Sends(hash, states, events, peers, BlockItem(h), n) + if GetsKnown(states[n], states[n + 1], h) then peers[n] else 0
    ensures h in states[n].tree ==> h in states[n + 1].tree
  {
    RunInv(hash, u, states, events, n);
    assert Enabled(hash, u, states[n], events[n]) && states[n + 1] == Next(hash, states[n], events[n]);
    FloodsIffNew(hash, u, states[n], events[n], BlockItem(h));
    StepMonotone(hash, u, states[n], events[n]);
  }

  /** How often exactly: on a run that ends with the block known, the packets sent for it are as many as
      the node had peers in the step in which it got to know the block; none while it is unknown. */
  lemma {:induction false} BlockSentOnce(
    hash: Block -> Digest, u: iset<Block>, states: seq<Ledger>, events: seq<Event>, peers: seq<nat>, h: Digest, n: nat)
    requires Ideal(hash, u) && IsRun(hash, u, states, events) && |peers| == |events| && n <= |events| && h != ZERO
    ensures h !in states[n].tree ==> Sends(hash, states, events, peers, BlockItem(h), n) == 0
    ensures h in states[n].tree ==>
              exists i :: 0 <= i < n && GetsKnown(states[i], states[i + 1], h)
                          && Sends(hash, states, events, peers, BlockItem(h), n) == peers[i]
  {
    if n > 0 {
      BlockSentOnce(hash, u, states, events, peers, h, n - 1);
      SendsWhenNew(hash, u, states, events, peers, h, n - 1);
      if GetsKnown(states[n - 1], states[n], h) {
        assert GetsKnown(states[n - 1], states[n - 1 + 1], h);
      }
    }
  }

  /** And a transaction: as many as the node had peers in the step in which it accepted a claim of the
      name, none if it never did. */
  lemma {:induction false} ClaimSentOnce(
    hash: Block -> Digest, u: iset<Block>, states: seq<Ledger>, events: seq<Event>, peers: seq<nat>, name: Name, n: nat)
    requires Ideal(hash, u) && IsRun(hash, u, states, events) && |peers| == |events| && n <= |events|
    ensures (exists i :: 0 <= i < n && Accepts(states[i], events[i], name)
                         && Sends(hash, states, events, peers, TxItem(name), n) == peers[i])
            || ((forall i :: 0 <= i < n ==> !Accepts(states[i], events[i], name))
                && Sends(hash, states, events, peers, TxItem(name), n) == 0)
  {
    if n > 0 {
      ClaimSentOnce(hash, u, states, events, peers, name, n - 1);
      if Accepts(states[n - 1], events[n - 1], name) {
        forall i | 0 <= i < n - 1 ensures !Accepts(states[i], events[i], name) {
          FloodAtMostOnce(hash, u, states, events, i, n - 1);
        }
      }
    }
  }

  predicate Accepts(l: Ledger, e: Event, name: Name) {
    e.Claim? && e.tx.name == name && Claimable(l, e.tx)
  }
}
