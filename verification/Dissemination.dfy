// What flooding is for: from wherever the network has got to, deliveries alone can bring every mined
// block and every accepted claim to every node.

module Dissemination {
  import opened Messages
  import opened TransactionsSets
  import opened Ledgers
  import opened ChainNetwork
  import opened NodeRuns

  // ---------- what has been published ----------

  function TxNames(txs: set<TxPublish>): set<Name> {
    set t | t in txs :: t.name
  }

  ghost predicate ChainPublished(txs: set<TxPublish>, c: Chain) {
    forall i, t :: 0 <= i < |c| && t in c[i].transactions ==> t in txs
  }

  /** The node has sent out every claim it keeps pending. */
  ghost predicate PendingPublished(txs: set<TxPublish>, l: Ledger) {
    forall n :: n in l.pending ==> l.pending[n] in txs
  }

  ghost predicate BlocksSent(net: Network) {
    forall h :: h in net.mined && h != ZERO ==> net.mined[h] != [] && Last(net.mined[h]) in net.blocks && IsGood(h)
  }

  ghost predicate ChainsSent(net: Network) {
    forall h :: h in net.mined ==> ChainPublished(net.txs, net.mined[h])
  }

  ghost predicate PendingSent(net: Network) {
    forall i :: 0 <= i < |net.nodes| ==> PendingPublished(net.txs, net.nodes[i])
  }

  ghost predicate SentIsKept(net: Network) {
    forall t :: t in net.txs ==> Kept(net, t.name)
  }

  /** Every mined block has been sent out and is good, as has been every claim, pending or mined; and nobody
      sends out a claim without keeping its name reserved. */
  ghost predicate Published(net: Network) {
    BlocksSent(net) && ChainsSent(net) && PendingSent(net) && SentIsKept(net)
  }

  ghost predicate Kept(net: Network, n: Name) {
    exists i :: 0 <= i < |net.nodes| && n in Reserved(net.nodes[i])
  }

  lemma {:induction false} ClaimsPublished(txs: set<TxPublish>, c: Chain)
    requires ChainPublished(txs, c)
    ensures forall n :: n in Claims(c) ==> Claims(c)[n] in txs
  {
    if c != [] {
      assert forall i :: 0 <= i < |c| - 1 ==> c[1..][i] == c[i + 1];
      ClaimsPublished(txs, c[1..]);
      forall n | n in Claims(c) ensures Claims(c)[n] in txs {
        if n in TxMap(c[0].transactions) {
          assert TxMap(c[0].transactions)[n] in c[0].transactions;
        }
      }
    }
  }

  lemma ChainNamesPublished(txs: set<TxPublish>, c: Chain)
    requires ChainPublished(txs, c)
    ensures ChainNames(c) <= TxNames(txs)
  {
    forall n | n in ChainNames(c) ensures n in TxNames(txs) {
      var i :| 0 <= i < |c| && n in BlockNames(c[i]);
      var t :| t in c[i].transactions && t.name == n;
    }
  }

  lemma SuffixPublished(txs: set<TxPublish>, c: Chain, k: nat)
    requires ChainPublished(txs, c) && k <= |c|
    ensures ChainPublished(txs, c[k..])
  {
    assert forall i :: 0 <= i < |c| - k ==> c[k..][i] == c[k + i];
  }

  /** A delivery puts nothing into the pending set that has not been sent out. */
  lemma ReceivedPublished(hash: Block -> Digest, u: iset<Block>, net: Network, l: Ledger, b: Block, k: nat)
    requires NodeOk(hash, u, net.mined, l) && ChainsSent(net) && PendingPublished(net.txs, l)
    requires Acceptable(hash, l, b) ==> CommonPrefix(l.tail, l.tree[b.prevHash], k)
    ensures PendingPublished(net.txs, Received(hash, l, b, k))
  {
    if Acceptable(hash, l, b) && Reorganises(hash, l, b) {
      assert ChainPublished(net.txs, l.tail);
      SuffixPublished(net.txs, l.tail, k);
      ClaimsPublished(net.txs, l.tail[k..]);
    }
  }

  lemma ListingPublished(txs: set<TxPublish>, l: Ledger, r: seq<TxPublish>)
    requires PendingPublished(txs, l) && Listing(r, l.pending)
    ensures forall t :: t in r ==> t in txs
  {
    var ks :| ListedBy(r, l.pending, ks);
    forall t | t in r ensures t in txs {
      var i :| 0 <= i < |r| && r[i] == t;
      assert ks[i] in ks;
    }
  }

  /** At every node a step keeps what is known and what is reserved. */
  lemma NodesGrow(hash: Block -> Digest, u: iset<Block>, net: Network, a: Action)
    requires NetInv(hash, u, net) && EnabledIn(hash, u, net, a)
    ensures |After(hash, u, net, a).nodes| == |net.nodes|
    ensures forall j :: 0 <= j < |net.nodes| ==> Reserved(net.nodes[j]) <= Reserved(After(hash, u, net, a).nodes[j])
    ensures forall j :: 0 <= j < |net.nodes| ==> net.nodes[j].tree.Keys <= After(hash, u, net, a).nodes[j].tree.Keys
  {
    StepAtNode(hash, u, net, a);
    assert NodeOk(hash, u, net.mined, net.nodes[a.node]);
    StepMonotone(hash, u, net.nodes[a.node], EventOf(a));
  }

  /** What one node reserves stays reserved by it, so what is kept stays kept. */
  lemma KeptStep(hash: Block -> Digest, u: iset<Block>, net: Network, a: Action, n: Name)
    requires NetInv(hash, u, net) && EnabledIn(hash, u, net, a) && Kept(net, n)
    ensures Kept(After(hash, u, net, a), n)
  {
    NodesGrow(hash, u, net, a);
    var i :| 0 <= i < |net.nodes| && n in Reserved(net.nodes[i]);
    assert n in Reserved(After(hash, u, net, a).nodes[i]);
  }

  lemma SentIsKeptStep(hash: Block -> Digest, u: iset<Block>, net: Network, a: Action)
    requires NetInv(hash, u, net) && EnabledIn(hash, u, net, a) && SentIsKept(net)
    ensures SentIsKept(After(hash, u, net, a))
  {
    var next := After(hash, u, net, a);
    forall t | t in next.txs ensures Kept(next, t.name) {
      if t in net.txs {
        KeptStep(hash, u, net, a, t.name);
      } else {
        assert t.name in Reserved(next.nodes[a.node]);
      }
    }
  }

  lemma BlocksSentStep(hash: Block -> Digest, u: iset<Block>, net: Network, a: Action)
    requires EnabledIn(hash, u, net, a) && BlocksSent(net)
    ensures BlocksSent(After(hash, u, net, a))
  {
    if a.MineAt? {
      var c := net.nodes[a.node].tail + [a.block];
      assert Last(c) == a.block;
    }
  }

  lemma ChainsSentStep(hash: Block -> Digest, u: iset<Block>, net: Network, a: Action)
    requires NetInv(hash, u, net) && EnabledIn(hash, u, net, a) && ChainsSent(net) && PendingSent(net)
    ensures ChainsSent(After(hash, u, net, a))
  {
    if a.MineAt? {
      var l := net.nodes[a.node];
      assert NodeOk(hash, u, net.mined, l) && PendingPublished(net.txs, l);
      ListingPublished(net.txs, l, a.block.transactions);
      assert ChainPublished(net.txs, l.tail);
      assert ChainPublished(net.txs, l.tail + [a.block]);
    }
  }

  lemma PendingSentStep(hash: Block -> Digest, u: iset<Block>, net: Network, a: Action)
    requires NetInv(hash, u, net) && EnabledIn(hash, u, net, a) && ChainsSent(net) && PendingSent(net)
    ensures PendingSent(After(hash, u, net, a))
  {
    var l, next := net.nodes[a.node], After(hash, u, net, a);
    assert NodeOk(hash, u, net.mined, l) && PendingPublished(net.txs, l);
    StepAtNode(hash, u, net, a);
    if a.DeliverBlock? {
      ReceivedPublished(hash, u, net, l, a.block, a.k);
    }
    assert PendingPublished(next.txs, next.nodes[a.node]);
    forall j | 0 <= j < |net.nodes| && j != a.node ensures PendingPublished(next.txs, next.nodes[j]) {
      assert PendingPublished(net.txs, net.nodes[j]) && next.nodes[j] == net.nodes[j];
    }
  }

  /** Every step keeps it. */
  lemma PublishedStep(hash: Block -> Digest, u: iset<Block>, net: Network, a: Action)
    requires NetInv(hash, u, net) && EnabledIn(hash, u, net, a) && Published(net)
    ensures Published(After(hash, u, net, a))
  {
    BlocksSentStep(hash, u, net, a);
    ChainsSentStep(hash, u, net, a);
    PendingSentStep(hash, u, net, a);
    SentIsKeptStep(hash, u, net, a);
  }

  ghost predicate NetOk(hash: Block -> Digest, u: iset<Block>, net: Network) {
    NetInv(hash, u, net) && Published(net)
  }

  ghost predicate StepsTo(hash: Block -> Digest, u: iset<Block>, net: Network, a: Action, next: Network) {
    EnabledIn(hash, u, net, a) && next == After(hash, u, net, a)
  }

  lemma NetOkStep(hash: Block -> Digest, u: iset<Block>, net: Network, a: Action, next: Network)
    requires NetOk(hash, u, net) && StepsTo(hash, u, net, a, next)
    ensures NetOk(hash, u, next)
  {
    NetStep(hash, u, net, a);
    PublishedStep(hash, u, net, a);
  }

  lemma InitOk(hash: Block -> Digest, u: iset<Block>, n: nat)
    requires Ideal(hash, u)
    ensures NetOk(hash, u, Init(n))
  {
    InitialInv(hash, u);
  }

  /** In every run: every mined block and every claim anybody keeps has been sent out. */
  lemma {:induction false} RunPublished(hash: Block -> Digest, u: iset<Block>, n: nat, nets: seq<Network>, actions: seq<Action>, t: nat)
    requires Ideal(hash, u) && IsNetRun(hash, u, n, nets, actions) && t < |nets|
    ensures NetOk(hash, u, nets[t])
  {
    if t == 0 {
      InitOk(hash, u, n);
    } else {
      RunPublished(hash, u, n, nets, actions, t - 1);
      var net, a, next := nets[t - 1], actions[t - 1], nets[t - 1 + 1];
      assert StepsTo(hash, u, net, a, next);
      NetOkStep(hash, u, net, a, next);
    }
  }

  /** The names reserved anywhere are exactly those of the claims sent out. */
  lemma ReservedArePublished(hash: Block -> Digest, u: iset<Block>, net: Network, i: nat)
    requires NetOk(hash, u, net) && i < |net.nodes|
    ensures Reserved(net.nodes[i]) <= TxNames(net.txs)
  {
    var l := net.nodes[i];
    assert NodeOk(hash, u, net.mined, l) && PendingPublished(net.txs, l);
    assert ChainPublished(net.txs, l.tail);
    ChainNamesPublished(net.txs, l.tail);
    forall n | n in l.pending ensures n in TxNames(net.txs) {
      assert l.pending[n] in net.txs && l.pending[n].name == n;
    }
  }

  // ---------- reachable networks ----------

  /** Some run of some number of nodes ends here. */
  ghost predicate Reachable(hash: Block -> Digest, u: iset<Block>, net: Network) {
    Ideal(hash, u) && exists n, nets, actions :: EndsIn(hash, u, n, nets, actions, net)
  }

  ghost predicate EndsIn(hash: Block -> Digest, u: iset<Block>, n: nat, nets: seq<Network>, actions: seq<Action>, net: Network) {
    IsNetRun(hash, u, n, nets, actions) && nets[|actions|] == net
  }

  lemma ReachableOk(hash: Block -> Digest, u: iset<Block>, net: Network)
    requires Reachable(hash, u, net)
    ensures NetOk(hash, u, net)
  {
    var n, nets, actions :| EndsIn(hash, u, n, nets, actions, net);
    RunPublished(hash, u, n, nets, actions, |actions|);
  }

  lemma ReachableStep(hash: Block -> Digest, u: iset<Block>, net: Network, a: Action)
    requires Reachable(hash, u, net) && EnabledIn(hash, u, net, a)
    ensures Reachable(hash, u, After(hash, u, net, a))
  {
    var n, nets, actions :| EndsIn(hash, u, n, nets, actions, net);
    var next := After(hash, u, net, a);
    var ns, aa := nets + [next], actions + [a];
    forall i | 0 <= i < |aa| ensures EnabledIn(hash, u, ns[i], aa[i]) && ns[i + 1] == After(hash, u, ns[i], aa[i]) {
      if i < |actions| {
        assert EnabledIn(hash, u, nets[i], actions[i]) && nets[i + 1] == After(hash, u, nets[i], actions[i]);
      }
    }
    assert EndsIn(hash, u, n, ns, aa, next);
  }

  /** In particular every network of a run is reachable. */
  lemma {:induction false} RunReachable(hash: Block -> Digest, u: iset<Block>, n: nat, nets: seq<Network>, actions: seq<Action>, t: nat)
    requires Ideal(hash, u) && IsNetRun(hash, u, n, nets, actions) && t < |nets|
    ensures Reachable(hash, u, nets[t]) && |nets[t].nodes| == n
  {
    RunSized(hash, u, n, nets, actions, t);
    if t == 0 {
      assert EndsIn(hash, u, n, [nets[0]], [], nets[0]);
    } else {
      RunReachable(hash, u, n, nets, actions, t - 1);
      assert EnabledIn(hash, u, nets[t - 1], actions[t - 1]) && nets[t - 1 + 1] == After(hash, u, nets[t - 1], actions[t - 1]);
      ReachableStep(hash, u, nets[t - 1], actions[t - 1]);
    }
  }

  // ---------- continuations by deliveries alone ----------

  datatype Kind = Blocks | Transactions

  predicate IsDelivery(a: Action, kind: Kind) {
    match kind
    case Blocks => a.DeliverBlock?
    case Transactions => a.DeliverTx?
  }

  ghost predicate IsPath(hash: Block -> Digest, u: iset<Block>, kind: Kind, nets: seq<Network>, actions: seq<Action>) {
    && |nets| == |actions| + 1
    && forall t :: 0 <= t < |actions| ==> IsDelivery(actions[t], kind) && StepsTo(hash, u, nets[t], actions[t], nets[t + 1])
  }

  /** Deliveries of this kind lead from one network to the other. */
  ghost predicate Leads(hash: Block -> Digest, u: iset<Block>, kind: Kind, from: Network, to: Network) {
    exists nets, actions :: IsPath(hash, u, kind, nets, actions) && nets[0] == from && nets[|actions|] == to
  }

  lemma LeadsSelf(hash: Block -> Digest, u: iset<Block>, kind: Kind, net: Network)
    ensures Leads(hash, u, kind, net, net)
  {
    assert IsPath(hash, u, kind, [net], []);
  }

  /** One more delivery at the end. */
  lemma LeadsOneMore(hash: Block -> Digest, u: iset<Block>, kind: Kind, from: Network, net: Network, a: Action)
    requires Leads(hash, u, kind, from, net) && EnabledIn(hash, u, net, a) && IsDelivery(a, kind)
    ensures Leads(hash, u, kind, from, After(hash, u, net, a))
  {
    var nets, actions :| IsPath(hash, u, kind, nets, actions) && nets[0] == from && nets[|actions|] == net;
    var next := After(hash, u, net, a);
    var ns, aa := nets + [next], actions + [a];
    forall t | 0 <= t < |aa| ensures IsDelivery(aa[t], kind) && StepsTo(hash, u, ns[t], aa[t], ns[t + 1]) {
      if t < |actions| {
        assert IsDelivery(actions[t], kind) && StepsTo(hash, u, nets[t], actions[t], nets[t + 1]);
      }
    }
    assert IsPath(hash, u, kind, ns, aa) && ns[0] == from && ns[|aa|] == next;
  }

  /** What deliveries alone keep: what has been mined and published, and whatever the nodes know or reserve. */
  ghost predicate Grown(net: Network, next: Network) {
    && next.mined == net.mined && next.blocks == net.blocks && next.txs == net.txs && |next.nodes| == |net.nodes|
    && (forall i :: 0 <= i < |net.nodes| ==> net.nodes[i].tree.Keys <= next.nodes[i].tree.Keys)
    && (forall i :: 0 <= i < |net.nodes| ==> Reserved(net.nodes[i]) <= Reserved(next.nodes[i]))
  }

  /** Deliveries of this kind lead to a network that keeps all that. */
  ghost predicate Continues(hash: Block -> Digest, u: iset<Block>, kind: Kind, net: Network, after: Network) {
    Leads(hash, u, kind, net, after) && Reachable(hash, u, after) && Grown(net, after)
  }

  lemma DeliveryKeepsBooks(hash: Block -> Digest, u: iset<Block>, net: Network, a: Action, kind: Kind)
    requires EnabledIn(hash, u, net, a) && IsDelivery(a, kind)
    ensures var next := After(hash, u, net, a);
            next.mined == net.mined && next.blocks == net.blocks && next.txs == net.txs && |next.nodes| == |net.nodes|
  {
    if a.DeliverTx? {
      assert net.txs + {a.tx} == net.txs;
    }
  }

  lemma ContinuesSelf(hash: Block -> Digest, u: iset<Block>, kind: Kind, net: Network)
    requires Reachable(hash, u, net)
    ensures Continues(hash, u, kind, net, net)
  {
    LeadsSelf(hash, u, kind, net);
  }

  lemma DeliveryContinues(hash: Block -> Digest, u: iset<Block>, net: Network, a: Action, kind: Kind)
    requires Reachable(hash, u, net) && EnabledIn(hash, u, net, a) && IsDelivery(a, kind)
    ensures Continues(hash, u, kind, net, After(hash, u, net, a))
  {
    var next := After(hash, u, net, a);
    ReachableStep(hash, u, net, a);
    ReachableOk(hash, u, net);
    LeadsSelf(hash, u, kind, net);
    LeadsOneMore(hash, u, kind, net, net, a);
    DeliveryKeepsBooks(hash, u, net, a, kind);
    NodesGrow(hash, u, net, a);
  }

  lemma {:induction false} LeadsOn(hash: Block -> Digest, u: iset<Block>, kind: Kind, a: Network, b: Network, c: Network)
    requires Leads(hash, u, kind, a, b) && Leads(hash, u, kind, b, c)
    ensures Leads(hash, u, kind, a, c)
  {
    var nets, actions :| IsPath(hash, u, kind, nets, actions) && nets[0] == b && nets[|actions|] == c;
    LeadsAlong(hash, u, kind, a, nets, actions, |actions|);
  }

  lemma {:induction false} LeadsAlong(hash: Block -> Digest, u: iset<Block>, kind: Kind, a: Network, nets: seq<Network>, actions: seq<Action>, t: nat)
    requires IsPath(hash, u, kind, nets, actions) && t < |nets| && Leads(hash, u, kind, a, nets[0])
    ensures Leads(hash, u, kind, a, nets[t])
  {
    if t > 0 {
      LeadsAlong(hash, u, kind, a, nets, actions, t - 1);
      assert IsDelivery(actions[t - 1], kind) && StepsTo(hash, u, nets[t - 1], actions[t - 1], nets[t - 1 + 1]);
      LeadsOneMore(hash, u, kind, a, nets[t - 1], actions[t - 1]);
    }
  }

  lemma GrownOn(a: Network, b: Network, c: Network)
    requires Grown(a, b) && Grown(b, c)
    ensures Grown(a, c)
  {
  }

  lemma ContinuesOn(hash: Block -> Digest, u: iset<Block>, kind: Kind, a: Network, b: Network, c: Network)
    requires Continues(hash, u, kind, a, b) && Continues(hash, u, kind, b, c)
    ensures Continues(hash, u, kind, a, c)
  {
    LeadsOn(hash, u, kind, a, b, c);
    GrownOn(a, b, c);
  }

  // ---------- one block, one claim ----------

  /** How far the two chains agree. */
  function CommonDepth(a: Chain, b: Chain): (k: nat)
    ensures CommonPrefix(a, b, k)
    ensures k < |a| && k < |b| ==> a[k] != b[k]
  {
    if a == [] || b == [] || a[0] != b[0] then 0
    else
      var k := CommonDepth(a[1..], b[1..]);
      assert a[..k + 1] == [a[0]] + a[1..][..k] && b[..k + 1] == [b[0]] + b[1..][..k];
      k + 1
  }

  /** A mined block has been sent out, is good, and its parent has been mined. */
  lemma MinedBlock(hash: Block -> Digest, u: iset<Block>, net: Network, h: Digest)
    requires Reachable(hash, u, net) && h in net.mined && h != ZERO
    ensures net.mined[h] != []
    ensures var b := Last(net.mined[h]);
            && hash(b) == h && b in u && b in net.blocks && IsGood(h)
            && b.prevHash in net.mined && |net.mined[b.prevHash]| < |net.mined[h]|
  {
    ReachableOk(hash, u, net);
    assert LinkOk(hash, u, net.mined, h);
  }

  /** When the node knows its parent it can be delivered, and is known afterwards. */
  lemma BlockArrives(hash: Block -> Digest, u: iset<Block>, net: Network, i: nat, b: Block) returns (a: Action)
    requires i < |net.nodes| && b in u && b in net.blocks && IsGood(hash(b))
    requires hash(b) !in net.nodes[i].tree && b.prevHash in net.nodes[i].tree
    ensures EnabledIn(hash, u, net, a) && a.DeliverBlock?
    ensures hash(b) in After(hash, u, net, a).nodes[i].tree
  {
    var l := net.nodes[i];
    a := DeliverBlock(i, b, CommonDepth(l.tail, l.tree[b.prevHash]));
  }

  /** From every reachable network, for every node and every mined block, some deliveries of blocks end
      with the node knowing the block: parents first, from the first one it lacks. */
  lemma {:induction false} BlockReaches(hash: Block -> Digest, u: iset<Block>, net: Network, i: nat, h: Digest)
    returns (after: Network)
    requires Reachable(hash, u, net) && i < |net.nodes| && h in net.mined
    ensures Continues(hash, u, Blocks, net, after) && h in after.nodes[i].tree
    decreases |net.mined[h]|
  {
    ReachableOk(hash, u, net);
    assert NodeOk(hash, u, net.mined, net.nodes[i]);
    ContinuesSelf(hash, u, Blocks, net);
    after := net;
    if h !in net.nodes[i].tree {
      MinedBlock(hash, u, net, h);
      var b := Last(net.mined[h]);
      after := BlockReaches(hash, u, net, i, b.prevHash);
      if h !in after.nodes[i].tree {
        var mid := after;
        var a := BlockArrives(hash, u, mid, i, b);
        after := After(hash, u, mid, a);
        DeliveryContinues(hash, u, mid, a, Blocks);
        ContinuesOn(hash, u, Blocks, net, mid, after);
      }
    }
  }

  /** A claim that has been sent out can be delivered to any node, and its name is reserved there afterwards. */
  lemma ClaimReaches(hash: Block -> Digest, u: iset<Block>, net: Network, i: nat, t: TxPublish) returns (after: Network)
    requires Reachable(hash, u, net) && i < |net.nodes| && t in net.txs
    ensures Continues(hash, u, Transactions, net, after) && t.name in Reserved(after.nodes[i])
  {
    var a := DeliverTx(i, t);
    after := After(hash, u, net, a);
    DeliveryContinues(hash, u, net, a, Transactions);
    ClaimableIffFree(net.nodes[i], t);
  }

  // ---------- everything everywhere ----------

  /** Node i knows these blocks and reserves these names. */
  ghost predicate Has(net: Network, i: nat, hs: set<Digest>, names: set<Name>) {
    i < |net.nodes| && hs <= net.nodes[i].tree.Keys && names <= Reserved(net.nodes[i])
  }

  ghost predicate FirstHave(net: Network, n: nat, hs: set<Digest>, names: set<Name>) {
    forall i :: 0 <= i < n ==> Has(net, i, hs, names)
  }

  lemma HasGrows(net: Network, after: Network, i: nat, hs: set<Digest>, names: set<Name>)
    requires Has(net, i, hs, names) && Grown(net, after)
    ensures Has(after, i, hs, names)
  {
  }

  lemma FirstHaveGrows(net: Network, after: Network, n: nat, hs: set<Digest>, names: set<Name>)
    requires FirstHave(net, n, hs, names) && Grown(net, after) && Has(after, n, hs, names)
    ensures FirstHave(after, n + 1, hs, names)
  {
    forall i | 0 <= i < n ensures Has(after, i, hs, names) {
      HasGrows(net, after, i, hs, names);
    }
  }

  lemma {:induction false} NodeGetsBlocks(hash: Block -> Digest, u: iset<Block>, net: Network, i: nat, hs: set<Digest>)
    returns (after: Network)
    requires Reachable(hash, u, net) && i < |net.nodes| && hs <= net.mined.Keys
    ensures Continues(hash, u, Blocks, net, after) && Has(after, i, hs, {})
    decreases |hs|
  {
    if hs == {} {
      ContinuesSelf(hash, u, Blocks, net);
      after := net;
    } else {
      var h :| h in hs;
      var mid := NodeGetsBlocks(hash, u, net, i, hs - {h});
      after := BlockReaches(hash, u, mid, i, h);
      HasGrows(mid, after, i, hs - {h}, {});
      ContinuesOn(hash, u, Blocks, net, mid, after);
    }
  }

  /** One more node, after the first n. */
  lemma NextGetsBlocks(hash: Block -> Digest, u: iset<Block>, net: Network, mid: Network, n: nat, hs: set<Digest>) returns (after: Network)
    requires Continues(hash, u, Blocks, net, mid) && n < |mid.nodes| && hs <= mid.mined.Keys && FirstHave(mid, n, hs, {})
    ensures Continues(hash, u, Blocks, net, after) && FirstHave(after, n + 1, hs, {})
  {
    after := NodeGetsBlocks(hash, u, mid, n, hs);
    FirstHaveGrows(mid, after, n, hs, {});
    ContinuesOn(hash, u, Blocks, net, mid, after);
  }

  lemma {:induction false} NodesGetBlocks(hash: Block -> Digest, u: iset<Block>, net: Network, n: nat, hs: set<Digest>) returns (after: Network)
    requires Reachable(hash, u, net) && n <= |net.nodes| && hs <= net.mined.Keys
    ensures Continues(hash, u, Blocks, net, after) && FirstHave(after, n, hs, {})
    decreases n
  {
    if n == 0 {
      ContinuesSelf(hash, u, Blocks, net);
      after := net;
    } else {
      var mid := NodesGetBlocks(hash, u, net, n - 1, hs);
      after := NextGetsBlocks(hash, u, net, mid, n - 1, hs);
    }
  }

  lemma OneMoreTxName(ts: set<TxPublish>, t: TxPublish)
    requires t in ts
    ensures TxNames(ts) == TxNames(ts - {t}) + {t.name}
  {
  }

  lemma {:induction false} NodeGetsClaims(hash: Block -> Digest, u: iset<Block>, net: Network, i: nat, ts: set<TxPublish>)
    returns (after: Network)
    requires Reachable(hash, u, net) && i < |net.nodes| && ts <= net.txs
    ensures Continues(hash, u, Transactions, net, after) && Has(after, i, {}, TxNames(ts))
    decreases |ts|
  {
    if ts == {} {
      ContinuesSelf(hash, u, Transactions, net);
      after := net;
    } else {
      var t :| t in ts;
      var mid := NodeGetsClaims(hash, u, net, i, ts - {t});
      after := ClaimReaches(hash, u, mid, i, t);
      HasGrows(mid, after, i, {}, TxNames(ts - {t}));
      OneMoreTxName(ts, t);
      ContinuesOn(hash, u, Transactions, net, mid, after);
    }
  }

  lemma NextGetsClaims(hash: Block -> Digest, u: iset<Block>, net: Network, mid: Network, n: nat, ts: set<TxPublish>) returns (after: Network)
    requires Continues(hash, u, Transactions, net, mid) && n < |mid.nodes| && ts <= mid.txs && FirstHave(mid, n, {}, TxNames(ts))
    ensures Continues(hash, u, Transactions, net, after) && FirstHave(after, n + 1, {}, TxNames(ts))
  {
    after := NodeGetsClaims(hash, u, mid, n, ts);
    FirstHaveGrows(mid, after, n, {}, TxNames(ts));
    ContinuesOn(hash, u, Transactions, net, mid, after);
  }

  lemma {:induction false} NodesGetClaims(hash: Block -> Digest, u: iset<Block>, net: Network, n: nat, ts: set<TxPublish>) returns (after: Network)
    requires Reachable(hash, u, net) && n <= |net.nodes| && ts <= net.txs
    ensures Continues(hash, u, Transactions, net, after) && FirstHave(after, n, {}, TxNames(ts))
    decreases n
  {
    if n == 0 {
      ContinuesSelf(hash, u, Transactions, net);
      after := net;
    } else {
      var mid := NodesGetClaims(hash, u, net, n - 1, ts);
      after := NextGetsClaims(hash, u, net, mid, n - 1, ts);
    }
  }

  lemma FullTree(hash: Block -> Digest, u: iset<Block>, net: Network, i: nat)
    requires Reachable(hash, u, net) && i < |net.nodes| && net.mined.Keys <= net.nodes[i].tree.Keys
    ensures net.nodes[i].tree == net.mined
  {
    ReachableOk(hash, u, net);
    assert NodeOk(hash, u, net.mined, net.nodes[i]);
  }

  /** From every reachable network some deliveries of blocks alone end with every node knowing exactly
      the blocks that have been mined anywhere. */
  lemma EverybodyGetsBlocks(hash: Block -> Digest, u: iset<Block>, n: nat, nets: seq<Network>, actions: seq<Action>, t: nat)
    requires Ideal(hash, u) && IsNetRun(hash, u, n, nets, actions) && t < |nets|
    ensures exists after :: Leads(hash, u, Blocks, nets[t], after) && SameTrees(after, nets[t].mined, n)
  {
    RunReachable(hash, u, n, nets, actions, t);
    var after := NodesGetBlocks(hash, u, nets[t], n, nets[t].mined.Keys);
    forall i | 0 <= i < n ensures after.nodes[i].tree == nets[t].mined {
      assert Has(after, i, nets[t].mined.Keys, {});
      FullTree(hash, u, after, i);
    }
    assert SameTrees(after, nets[t].mined, n);
  }

  ghost predicate SameTrees(net: Network, tree: map<Digest, Chain>, n: nat) {
    |net.nodes| == n && forall i :: 0 <= i < n ==> net.nodes[i].tree == tree
  }

  ghost predicate SameNames(net: Network, names: set<Name>, n: nat) {
    |net.nodes| == n && forall i :: 0 <= i < n ==> Reserved(net.nodes[i]) == names
  }

  /** From every reachable network some deliveries of transactions alone end with every node reserving
      exactly the names that have been claimed anywhere. */
  lemma EverybodyGetsClaims(hash: Block -> Digest, u: iset<Block>, n: nat, nets: seq<Network>, actions: seq<Action>, t: nat)
    requires Ideal(hash, u) && IsNetRun(hash, u, n, nets, actions) && t < |nets|
    ensures exists after :: Leads(hash, u, Transactions, nets[t], after) && SameNames(after, TxNames(nets[t].txs), n)
    ensures forall m :: m in TxNames(nets[t].txs) <==> Kept(nets[t], m)
  {
    RunReachable(hash, u, n, nets, actions, t);
    var after := NodesGetClaims(hash, u, nets[t], n, nets[t].txs);
    forall i | 0 <= i < n ensures Reserved(after.nodes[i]) == TxNames(nets[t].txs) {
      assert Has(after, i, {}, TxNames(nets[t].txs));
      ReachableOk(hash, u, after);
      ReservedArePublished(hash, u, after, i);
    }
    assert SameNames(after, TxNames(nets[t].txs), n);
    ReachableOk(hash, u, nets[t]);
    forall m ensures m in TxNames(nets[t].txs) <==> Kept(nets[t], m) {
      if Kept(nets[t], m) {
        var i :| 0 <= i < |nets[t].nodes| && m in Reserved(nets[t].nodes[i]);
        ReachableOk(hash, u, nets[t]);
        ReservedArePublished(hash, u, nets[t], i);
      }
    }
  }

  /** A claim's way onto everybody's tree: whenever a node is given a claim with a free name, and a good
      block can be made of what it then keeps pending, it can mine the block, and deliveries of blocks
      alone can bring the block, which claims the name, to every node. */
  lemma ClaimSpreads(hash: Block -> Digest, u: iset<Block>, net: Network, i: nat, tx: TxPublish, b: Block)
    returns (claimed: Network, mined: Network, after: Network)
    requires Reachable(hash, u, net) && i < |net.nodes| && tx.name !in Reserved(net.nodes[i])
    requires b in u && IsGood(hash(b)) && b.prevHash == ChainHash(hash, net.nodes[i].tail)
    requires Listing(b.transactions, net.nodes[i].pending[tx.name := tx])
    ensures StepsTo(hash, u, net, Share(i, tx), claimed) && StepsTo(hash, u, claimed, MineAt(i, b), mined)
    ensures Leads(hash, u, Blocks, mined, after) && |after.nodes| == |net.nodes|
    ensures forall j :: 0 <= j < |after.nodes| ==> hash(b) in after.nodes[j].tree
    ensures tx.name in BlockNames(b)
  {
    var l := net.nodes[i];
    ClaimableIffFree(l, tx);
    claimed := After(hash, u, net, Share(i, tx));
    ReachableStep(hash, u, net, Share(i, tx));
    assert claimed.nodes[i] == Claimed(l, tx);
    assert tx.name in claimed.nodes[i].pending;
    PendingKeyed(hash, u, claimed, i);
    ListingNames(b.transactions, claimed.nodes[i].pending);
    mined := After(hash, u, claimed, MineAt(i, b));
    ReachableStep(hash, u, claimed, MineAt(i, b));
    after := NodesGetBlocks(hash, u, mined, |mined.nodes|, {hash(b)});
    forall j | 0 <= j < |after.nodes| ensures hash(b) in after.nodes[j].tree {
      assert Has(after, j, {hash(b)}, {});
    }
  }

  lemma PendingKeyed(hash: Block -> Digest, u: iset<Block>, net: Network, i: nat)
    requires Reachable(hash, u, net) && i < |net.nodes|
    ensures WellKeyed(net.nodes[i].pending)
  {
    ReachableOk(hash, u, net);
    assert NodeOk(hash, u, net.mined, net.nodes[i]);
  }
}
