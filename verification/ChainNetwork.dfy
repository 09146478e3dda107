// A network of nodes that share files, exchange transactions and blocks and mine. Messages may be
// lost, repeated and reordered: everything ever sent stays available for delivery at any node.

module ChainNetwork {
  import opened Messages
  import opened TransactionsSets
  import opened Ledgers

  // ---------- chains that reserve every name once ----------

  /** No two transactions of the block claim one name. */
  predicate NamesOnce(txs: seq<TxPublish>) {
    forall x, y :: 0 <= x < y < |txs| ==> txs[x].name != txs[y].name
  }

  /** Every name is claimed at most once on the chain, be it in one block or in two. */
  ghost predicate Unique(c: Chain) {
    && (forall i :: 0 <= i < |c| ==> NamesOnce(c[i].transactions))
    && (forall i, j :: 0 <= i < j < |c| ==> BlockNames(c[i]) !! BlockNames(c[j]))
  }

  lemma UniqueAppend(c: Chain, b: Block)
    requires Unique(c) && NamesOnce(b.transactions) && BlockNames(b) !! ChainNames(c)
    ensures Unique(c + [b])
  {
    var d := c + [b];
    forall i, j | 0 <= i < j < |d| ensures BlockNames(d[i]) !! BlockNames(d[j]) {
      assert d[i] == c[i];
      assert BlockNames(c[i]) <= ChainNames(c);
    }
  }

  lemma UniqueSplit(c: Chain, k: nat)
    requires Unique(c) && k <= |c|
    ensures ChainNames(c[..k]) !! ChainNames(c[k..])
  {
    forall n | n in ChainNames(c[..k]) ensures n !in ChainNames(c[k..]) {
      var i :| 0 <= i < k && n in BlockNames(c[..k][i]);
      assert n in BlockNames(c[i]);
      assert forall j :: 0 <= j < |c| - k ==> c[k..][j] == c[k + j];
    }
  }

  /** A slice copied from a set with every transaction under its own name claims each name once. */
  lemma ListingNamesOnce(r: seq<TxPublish>, m: map<Name, TxPublish>)
    requires Listing(r, m) && WellKeyed(m)
    ensures NamesOnce(r)
  {
    var ks :| ListedBy(r, m, ks);
    forall x, y | 0 <= x < y < |r| ensures r[x].name != r[y].name {
      assert ks[x] in ks && ks[y] in ks;
    }
  }

  // ---------- the network ----------

  /** What has been published stays in txs and blocks. The history variable mined records every
      block ever mined with the chain it was mined on. */
  datatype Network = Network(nodes: seq<Ledger>, txs: set<TxPublish>, blocks: set<Block>, mined: map<Digest, Chain>)

  datatype Action =
    | Share(node: nat, tx: TxPublish)           // a client shares a file
    | DeliverTx(node: nat, tx: TxPublish)
    | DeliverBlock(node: nat, block: Block, k: nat)
    | MineAt(node: nat, block: Block)

  function Init(n: nat): Network {
    Network(seq(n, i => INITIAL), {}, {}, map[ZERO := []])
  }

  ghost predicate EnabledIn(hash: Block -> Digest, u: iset<Block>, net: Network, a: Action) {
    && a.node < |net.nodes|
    && match a
       case Share(i, tx) => true
       case DeliverTx(i, tx) => tx in net.txs
       case DeliverBlock(i, b, k) => b in net.blocks && Enabled(hash, u, net.nodes[i], Deliver(b, k))
       case MineAt(i, b) => Enabled(hash, u, net.nodes[i], Mine(b))
  }

  ghost function After(hash: Block -> Digest, u: iset<Block>, net: Network, a: Action): Network
    requires EnabledIn(hash, u, net, a)
  {
    match a
    case Share(i, tx) => AfterClaim(net, i, tx)
    case DeliverTx(i, tx) => AfterClaim(net, i, tx)
    case DeliverBlock(i, b, k) => net.(nodes := net.nodes[i := Received(hash, net.nodes[i], b, k)])
    case MineAt(i, b) =>
      net.(nodes := net.nodes[i := Mined(hash, net.nodes[i], b)],
           blocks := net.blocks + {b},
           mined := net.mined[hash(b) := net.nodes[i].tail + [b]])
  }

  /** A node that accepts a transaction sends it to its peers. */
  function AfterClaim(net: Network, i: nat, tx: TxPublish): Network
    requires i < |net.nodes|
  {
    net.(nodes := net.nodes[i := Claimed(net.nodes[i], tx)],
         txs := if Claimable(net.nodes[i], tx) then net.txs + {tx} else net.txs)
  }

  // ---------- the invariant ----------

  /** A node knows nothing but mined blocks, each on the chain it was mined on. */
  ghost predicate Within(tree: map<Digest, Chain>, mined: map<Digest, Chain>) {
    forall h :: h in tree ==> h in mined && mined[h] == tree[h]
  }

  ghost predicate NodeOk(hash: Block -> Digest, u: iset<Block>, mined: map<Digest, Chain>, l: Ledger) {
    && Inv(hash, u, l)
    && Within(l.tree, mined)
    && l.pending.Keys !! ChainNames(l.tail)
  }

  ghost predicate AllUnique(mined: map<Digest, Chain>) {
    forall h :: h in mined ==> Unique(mined[h])
  }

  ghost predicate NetInv(hash: Block -> Digest, u: iset<Block>, net: Network) {
    && TreeOk(hash, u, net.mined)
    && AllUnique(net.mined)
    && (forall b :: b in net.blocks ==> hash(b) in net.mined)
    && forall i :: 0 <= i < |net.nodes| ==> NodeOk(hash, u, net.mined, net.nodes[i])
  }

  lemma TailUnique(hash: Block -> Digest, u: iset<Block>, mined: map<Digest, Chain>, l: Ledger)
    requires NodeOk(hash, u, mined, l) && AllUnique(mined)
    ensures Unique(l.tail)
  {
    assert ChainHash(hash, l.tail) in mined;
  }

  /** Delivery of a mined block: the node attaches it to the chain it was mined on. */
  lemma ReceivedWithin(hash: Block -> Digest, u: iset<Block>, mined: map<Digest, Chain>, l: Ledger, b: Block, k: nat)
    requires NodeOk(hash, u, mined, l) && TreeOk(hash, u, mined)
    requires b in u && hash(b) in mined && Acceptable(hash, l, b)
    requires CommonPrefix(l.tail, l.tree[b.prevHash], k)
    ensures Within(Received(hash, l, b, k).tree, mined)
    ensures mined[hash(b)] == l.tree[b.prevHash] + [b]
  {
    KnownBlock(hash, u, mined, b);
  }

  /** After a delivery the pending names are still off the official chain. On a switch of forks this
      needs the old branch to be free of names from below the fork. */
  lemma ReceivedPendingFree(hash: Block -> Digest, u: iset<Block>, mined: map<Digest, Chain>, l: Ledger, b: Block, k: nat)
    requires NodeOk(hash, u, mined, l) && AllUnique(mined)
    requires Acceptable(hash, l, b) && CommonPrefix(l.tail, l.tree[b.prevHash], k)
    ensures Received(hash, l, b, k).pending.Keys !! ChainNames(Received(hash, l, b, k).tail)
  {
    var parent := l.tree[b.prevHash];
    if b.prevHash == ChainHash(hash, l.tail) {
      ChainNamesAppend(l.tail, [b]);
      ChainNamesOne(b);
    } else if |parent| >= |l.tail| {
      TailUnique(hash, u, mined, l);
      UniqueSplit(l.tail, k);
      ChainNamesSplit(l.tail, k);
      ChainNamesSplit(parent + [b], k);
      assert (parent + [b])[..k] == l.tail[..k];
      ClaimsKeys(l.tail[k..]);
    }
  }

  lemma ReceivedOk(hash: Block -> Digest, u: iset<Block>, mined: map<Digest, Chain>, l: Ledger, b: Block, k: nat)
    requires NodeOk(hash, u, mined, l) && TreeOk(hash, u, mined) && AllUnique(mined)
    requires hash(b) in mined && Enabled(hash, u, l, Deliver(b, k))
    ensures NodeOk(hash, u, mined, Received(hash, l, b, k))
  {
    ReceivedInv(hash, u, l, b, k);
    if Acceptable(hash, l, b) {
      ReceivedWithin(hash, u, mined, l, b, k);
      ReceivedPendingFree(hash, u, mined, l, b, k);
    }
  }

  /** Mining: the new block claims names nobody claims below it. If the very block was mined before,
      it was mined on the same chain. */
  lemma MinedOk(hash: Block -> Digest, u: iset<Block>, mined: map<Digest, Chain>, l: Ledger, b: Block)
    requires NodeOk(hash, u, mined, l) && TreeOk(hash, u, mined) && AllUnique(mined)
    requires Enabled(hash, u, l, Mine(b))
    ensures var grown := mined[hash(b) := l.tail + [b]];
            TreeOk(hash, u, grown) && AllUnique(grown) && Within(mined, grown)
            && NodeOk(hash, u, grown, Mined(hash, l, b))
  {
    MinedInv(hash, u, l, b);
    assert mined[b.prevHash] == l.tail;
    if hash(b) in mined {
      KnownBlock(hash, u, mined, b);
      assert mined[hash(b) := l.tail + [b]] == mined;
    } else {
      GrownTreeOk(hash, u, mined, b);
    }
    TailUnique(hash, u, mined, l);
    ListingNames(b.transactions, l.pending);
    ListingNamesOnce(b.transactions, l.pending);
    UniqueAppend(l.tail, b);
  }

  lemma WithinOk(hash: Block -> Digest, u: iset<Block>, mined: map<Digest, Chain>, grown: map<Digest, Chain>, l: Ledger)
    requires NodeOk(hash, u, mined, l) && Within(mined, grown)
    ensures NodeOk(hash, u, grown, l)
  {
  }

  lemma ClaimedOk(hash: Block -> Digest, u: iset<Block>, mined: map<Digest, Chain>, l: Ledger, tx: TxPublish)
    requires NodeOk(hash, u, mined, l)
    ensures NodeOk(hash, u, mined, Claimed(l, tx))
  {
    StepMonotone(hash, u, l, Claim(tx));
  }

  /** Every step of the network keeps the invariant. */
  lemma NetStep(hash: Block -> Digest, u: iset<Block>, net: Network, a: Action)
    requires NetInv(hash, u, net) && EnabledIn(hash, u, net, a)
    ensures NetInv(hash, u, After(hash, u, net, a))
  {
    var l := net.nodes[a.node];
    assert NodeOk(hash, u, net.mined, l);
    match a
    case Share(i, tx) => ClaimedOk(hash, u, net.mined, l, tx);
    case DeliverTx(i, tx) => ClaimedOk(hash, u, net.mined, l, tx);
    case DeliverBlock(i, b, k) => ReceivedOk(hash, u, net.mined, l, b, k);
    case MineAt(i, b) =>
      MinedOk(hash, u, net.mined, l, b);
      var next := After(hash, u, net, a);
      forall j | 0 <= j < |net.nodes| ensures NodeOk(hash, u, next.mined, next.nodes[j]) {
        if j != i {
          WithinOk(hash, u, net.mined, next.mined, net.nodes[j]);
        }
      }
  }

  // ---------- runs ----------

  ghost predicate IsNetRun(hash: Block -> Digest, u: iset<Block>, n: nat, nets: seq<Network>, actions: seq<Action>) {
    && |nets| == |actions| + 1
    && nets[0] == Init(n)
    && forall i :: 0 <= i < |actions| ==>
         EnabledIn(hash, u, nets[i], actions[i]) && nets[i + 1] == After(hash, u, nets[i], actions[i])
  }

  lemma {:induction false} NetRunInv(hash: Block -> Digest, u: iset<Block>, n: nat, nets: seq<Network>, actions: seq<Action>, t: nat)
    requires Ideal(hash, u) && IsNetRun(hash, u, n, nets, actions) && t < |nets|
    ensures NetInv(hash, u, nets[t])
  {
    if t == 0 {
      InitialInv(hash, u);
    } else {
      NetRunInv(hash, u, n, nets, actions, t - 1);
      NetStep(hash, u, nets[t - 1], actions[t - 1]);
    }
  }

  /** In every run in which blocks are made by mining, at every moment and every node: each known
      chain, the official one included, reserves every name at most once, and no pending name is
      reserved on the official chain. */
  lemma NamesReservedOnce(hash: Block -> Digest, u: iset<Block>, n: nat, nets: seq<Network>, actions: seq<Action>, t: nat, i: nat)
    requires Ideal(hash, u) && IsNetRun(hash, u, n, nets, actions) && t < |nets| && i < |nets[t].nodes|
    ensures Unique(nets[t].nodes[i].tail)
    ensures forall h :: h in nets[t].nodes[i].tree ==> Unique(nets[t].nodes[i].tree[h])
    ensures nets[t].nodes[i].pending.Keys !! ChainNames(nets[t].nodes[i].tail)
  {
    NetRunInv(hash, u, n, nets, actions, t);
    assert NodeOk(hash, u, nets[t].mined, nets[t].nodes[i]);
    TailUnique(hash, u, nets[t].mined, nets[t].nodes[i]);
  }

  /** Two nodes that know the same block agree on the whole chain below it. */
  lemma NodesAgreeOnChains(hash: Block -> Digest, u: iset<Block>, n: nat, nets: seq<Network>, actions: seq<Action>, t: nat, i: nat, j: nat, h: Digest)
    requires Ideal(hash, u) && IsNetRun(hash, u, n, nets, actions) && t < |nets|
    requires i < |nets[t].nodes| && j < |nets[t].nodes|
    requires h in nets[t].nodes[i].tree && h in nets[t].nodes[j].tree
    ensures nets[t].nodes[i].tree[h] == nets[t].nodes[j].tree[h]
  {
    NetRunInv(hash, u, n, nets, actions, t);
    assert NodeOk(hash, u, nets[t].mined, nets[t].nodes[i]) && NodeOk(hash, u, nets[t].mined, nets[t].nodes[j]);
  }

  // ---------- why mining is needed as the only source of blocks ----------

  /** AddBlock does not look at names: a good block that claims a name again is appended. */
  lemma AddBlockDoesNotCheckNames(hash: Block -> Digest, u: iset<Block>, a: Block, b: Block)
    requires Ideal(hash, u) && a in u && b in u
    requires IsGood(hash(a)) && IsGood(hash(b)) && hash(a) != hash(b)
    requires a.prevHash == ZERO && b.prevHash == hash(a) && b.transactions == a.transactions && a.transactions != []
    ensures var m := Received(hash, Received(hash, INITIAL, a, 0), b, 0);
            m.tail == [a, b] && !Unique(m.tail)
  {
    var l := Received(hash, INITIAL, a, 0);
    assert l.tail == [a] && l.tree == map[ZERO := [], hash(a) := [a]];
    assert [a] + [b] == [a, b];
    assert a.transactions[0].name in BlockNames([a, b][0]) && a.transactions[0].name in BlockNames([a, b][1]);
  }

  lemma ExtensionUniqueIff(c: Chain, b: Block)
    requires Unique(c)
    ensures Unique(c + [b]) <==> NamesOnce(b.transactions) && BlockNames(b) !! ChainNames(c)
  {
    if NamesOnce(b.transactions) && BlockNames(b) !! ChainNames(c) {
      UniqueAppend(c, b);
    }
    if Unique(c + [b]) {
      var d := c + [b];
      assert d[|c|] == b;
      forall i | 0 <= i < |c| ensures BlockNames(c[i]) !! BlockNames(b) {
        assert d[i] == c[i];
      }
    }
  }

  /** The test AddBlock does not make: the block claims each name once, and none that is claimed on
      the chain it is appended to. */
  predicate ClaimsAreNew(l: Ledger, b: Block)
    requires b.prevHash in l.tree
  {
    NamesOnce(b.transactions) && BlockNames(b) !! ChainNames(l.tree[b.prevHash])
  }

  /** AddBlock keeps the names unique on every known chain, be it the tail, a short fork or a chain
      it switches to, exactly when the accepted block passes the test. */
  lemma AddBlockUniqueIff(hash: Block -> Digest, u: iset<Block>, l: Ledger, b: Block, k: nat)
    requires Inv(hash, u, l) && b in u && AllUnique(l.tree)
    requires Acceptable(hash, l, b) && CommonPrefix(l.tail, l.tree[b.prevHash], k)
    ensures AllUnique(Received(hash, l, b, k).tree) <==> ClaimsAreNew(l, b)
  {
    var m, parent := Received(hash, l, b, k), l.tree[b.prevHash];
    assert m.tree == l.tree[hash(b) := parent + [b]];
    ExtensionUniqueIff(parent, b);
    assert m.tree[hash(b)] == parent + [b];
    assert forall h :: h in m.tree && h != hash(b) ==> h in l.tree && m.tree[h] == l.tree[h];
  }

  /** One node on its own, whatever blocks it is given: names unique on every known chain, pending
      names off the official one. */
  ghost predicate AloneOk(hash: Block -> Digest, u: iset<Block>, l: Ledger) {
    NodeOk(hash, u, l.tree, l) && AllUnique(l.tree)
  }

  /** The step delivers no block that is accepted without passing the test. */
  predicate StepClaimsNew(hash: Block -> Digest, l: Ledger, e: Event) {
    e.Deliver? && Acceptable(hash, l, e.block) ==> ClaimsAreNew(l, e.block)
  }

  lemma AloneStepIff(hash: Block -> Digest, u: iset<Block>, l: Ledger, e: Event)
    requires AloneOk(hash, u, l) && Enabled(hash, u, l, e)
    ensures AllUnique(Next(hash, l, e).tree) <==> StepClaimsNew(hash, l, e)
    ensures StepClaimsNew(hash, l, e) ==> AloneOk(hash, u, Next(hash, l, e))
  {
    StepMonotone(hash, u, l, e);
    match e
    case Deliver(b, k) =>
      if Acceptable(hash, l, b) {
        AddBlockUniqueIff(hash, u, l, b, k);
        ReceivedPendingFree(hash, u, l.tree, l, b, k);
      }
    case Claim(tx) => ClaimedOk(hash, u, l.tree, l, tx);
    case Mine(b) => MinedOk(hash, u, l.tree, l, b);
  }

  lemma {:induction false} AloneRun(hash: Block -> Digest, u: iset<Block>, states: seq<Ledger>, events: seq<Event>, i: nat)
    requires Ideal(hash, u) && IsRun(hash, u, states, events) && i < |states|
    requires forall j :: 0 <= j < i ==> StepClaimsNew(hash, states[j], events[j])
    ensures AloneOk(hash, u, states[i])
  {
    if i == 0 {
      InitialInv(hash, u);
    } else {
      AloneRun(hash, u, states, events, i - 1);
      assert Enabled(hash, u, states[i - 1], events[i - 1]) && states[i - 1 + 1] == Next(hash, states[i - 1], events[i - 1]);
      AloneStepIff(hash, u, states[i - 1], events[i - 1]);
    }
  }

  /** On any run of a node, with blocks of anybody's making: up to any moment the names have been
      unique on all known chains if and only if every block accepted so far passed the test when it
      was accepted. */
  lemma {:induction false} RunUniqueIff(hash: Block -> Digest, u: iset<Block>, states: seq<Ledger>, events: seq<Event>, n: nat)
    requires Ideal(hash, u) && IsRun(hash, u, states, events) && n < |states|
    ensures (forall i :: 0 <= i <= n ==> AllUnique(states[i].tree)) <==>
            (forall i :: 0 <= i < n ==> StepClaimsNew(hash, states[i], events[i]))
  {
    if n == 0 {
      AloneRun(hash, u, states, events, 0);
    } else {
      RunUniqueIff(hash, u, states, events, n - 1);
      if forall i :: 0 <= i < n - 1 ==> StepClaimsNew(hash, states[i], events[i]) {
        AloneRun(hash, u, states, events, n - 1);
        assert Enabled(hash, u, states[n - 1], events[n - 1]) && states[n - 1 + 1] == Next(hash, states[n - 1], events[n - 1]);
        AloneStepIff(hash, u, states[n - 1], events[n - 1]);
      }
    }
  }
}
