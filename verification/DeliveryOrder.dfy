// Which blocks a node's tree holds, as a function of the order in which blocks arrive.

module DeliveryOrder {
  import opened Messages
  import opened Ledgers

  // ---------- the waiting buffer ----------

  /** What the buffer is for: no block waits once its parent is known. */
  ghost predicate Closed(tree: map<Digest, Chain>, waiting: map<Digest, Block>) {
    forall h :: h in waiting ==> waiting[h].prevHash !in tree
  }

  ghost predicate OrphansClosed(l: Ledger) {
    Closed(l.tree, l.waiting)
  }

  /** Whether the buffer is closed after AddBlock, from any state: an accepted block must not be the
      parent of a block that goes on waiting, and no such block may have had a known parent before.
      The drain does not help: it looks up the waiting block's own hash, not its parent's. */
  lemma OrphansClosedIff(hash: Block -> Digest, u: iset<Block>, l: Ledger, b: Block, k: nat)
    requires Inv(hash, u, l) && b in u
    requires Acceptable(hash, l, b) ==> CommonPrefix(l.tail, l.tree[b.prevHash], k)
    ensures OrphansClosed(Received(hash, l, b, k)) <==>
            if Acceptable(hash, l, b)
            then forall h :: h in l.waiting && h !in l.tree && h != hash(b) ==>
                   l.waiting[h].prevHash !in l.tree && l.waiting[h].prevHash != hash(b)
            else OrphansClosed(l)
    ensures OrphansClosed(l) ==>
              (OrphansClosed(Received(hash, l, b, k)) <==>
               (Acceptable(hash, l, b) ==> forall h :: h in l.waiting ==> l.waiting[h].prevHash != hash(b)))
  {
    var m := Received(hash, l, b, k);
    if Acceptable(hash, l, b) {
      AcceptedBuffer(hash, l, b, k);
      forall h | h in l.waiting && h in l.tree ensures l.waiting[h].prevHash in l.tree {
        KnownBlock(hash, u, l.tree, l.waiting[h]);
      }
    } else if m != l {
      assert m.waiting == l.waiting[hash(b) := b] && m.waiting[hash(b)] == b;
      forall h | h in l.waiting ensures h in m.waiting && m.waiting[h] == l.waiting[h] {
        assert hash(l.waiting[h]) == h;
      }
    }
  }

  /** What the buffer and the tree hold after a block is accepted. */
  lemma AcceptedBuffer(hash: Block -> Digest, l: Ledger, b: Block, k: nat)
    requires Acceptable(hash, l, b) && CommonPrefix(l.tail, l.tree[b.prevHash], k)
    ensures var m := Received(hash, l, b, k);
            && m.tree.Keys == l.tree.Keys + {hash(b)}
            && forall h :: h in m.waiting <==> h in l.waiting && h !in l.tree && h != hash(b)
    ensures forall h :: h in Received(hash, l, b, k).waiting ==> Received(hash, l, b, k).waiting[h] == l.waiting[h]
  {
  }

  /** A child that arrives before its parent is still waiting when both have arrived. */
  lemma ChildFirstIsStuck(hash: Block -> Digest, u: iset<Block>, a: Block, b: Block)
    requires Ideal(hash, u) && a in u && b in u
    requires IsGood(hash(a)) && IsGood(hash(b)) && a.prevHash == ZERO && b.prevHash == hash(a)
    ensures var m := Received(hash, Received(hash, INITIAL, b, 0), a, 0);
            b.prevHash in m.tree && hash(b) in m.waiting && hash(b) !in m.tree
  {
    var l := Received(hash, INITIAL, b, 0);
    assert l == INITIAL.(waiting := map[hash(b) := b]);
    assert hash(a) != hash(b);
  }

  // ---------- the tree ----------

  /** The effect of AddBlock on the known blocks. */
  function ReceiveTree(hash: Block -> Digest, tree: map<Digest, Chain>, b: Block): map<Digest, Chain> {
    if hash(b) !in tree && IsGood(hash(b)) && b.prevHash in tree
    then tree[hash(b) := tree[b.prevHash] + [b]]
    else tree
  }

  lemma ReceivedTree(hash: Block -> Digest, u: iset<Block>, l: Ledger, b: Block, k: nat)
    requires Inv(hash, u, l) && b in u
    requires Acceptable(hash, l, b) ==> CommonPrefix(l.tail, l.tree[b.prevHash], k)
    ensures Received(hash, l, b, k).tree == ReceiveTree(hash, l.tree, b)
  {
  }

  /** The known blocks of a new node after the blocks ds have arrived in this order. */
  function TreeAfter(hash: Block -> Digest, ds: seq<Block>): map<Digest, Chain> {
    if ds == [] then INITIAL.tree else ReceiveTree(hash, TreeAfter(hash, Front(ds)), Last(ds))
  }

  ghost predicate LinkedAt(hash: Block -> Digest, c: Chain, i: int)
    requires 0 <= i < |c|
  {
    IsGood(hash(c[i])) && c[i].prevHash == ChainHash(hash, c[..i])
  }

  /** A chain of good blocks hanging from the root. */
  ghost predicate Linked(hash: Block -> Digest, c: Chain) {
    forall i :: 0 <= i < |c| ==> LinkedAt(hash, c, i)
  }

  /** The blocks of c occur in ds in the order of c, possibly with others in between. */
  ghost predicate InOrder(c: Chain, ds: seq<Block>) {
    c == [] || (ds != [] && (InOrder(c, Front(ds)) || (Last(c) == Last(ds) && InOrder(Front(c), Front(ds)))))
  }

  ghost predicate Known(hash: Block -> Digest, tree: map<Digest, Chain>, c: Chain) {
    ChainHash(hash, c) in tree && tree[ChainHash(hash, c)] == c
  }

  lemma {:induction false} TreeAfterOk(hash: Block -> Digest, u: iset<Block>, ds: seq<Block>)
    requires Ideal(hash, u) && forall b :: b in ds ==> b in u
    ensures TreeOk(hash, u, TreeAfter(hash, ds))
  {
    if ds != [] {
      TreeAfterOk(hash, u, Front(ds));
      var tree := TreeAfter(hash, Front(ds));
      if hash(Last(ds)) !in tree && Last(ds).prevHash in tree {
        GrownTreeOk(hash, u, tree, Last(ds));
      }
    }
  }

  lemma LinkedFront(hash: Block -> Digest, c: Chain)
    requires c != []
    ensures Linked(hash, c) <==> Linked(hash, Front(c)) && LinkedAt(hash, c, |c| - 1)
  {
    forall i | 0 <= i < |Front(c)| ensures LinkedAt(hash, Front(c), i) <==> LinkedAt(hash, c, i) {
      assert Front(c)[..i] == c[..i];
    }
  }

  /** The chain a well-formed tree stores under a hash ends in that hash. */
  lemma StoredChainHash(hash: Block -> Digest, u: iset<Block>, tree: map<Digest, Chain>, h: Digest)
    requires TreeOk(hash, u, tree) && h in tree
    ensures ChainHash(hash, tree[h]) == h
  {
    if h != ZERO {
      assert LinkOk(hash, u, tree, h);
    }
  }

  /** One arrival: a non-empty chain is known afterwards when it was known before, or when it ends
      in the arriving good block and its front was known. */
  lemma KnownStep(hash: Block -> Digest, u: iset<Block>, tree: map<Digest, Chain>, b: Block, c: Chain)
    requires Ideal(hash, u) && TreeOk(hash, u, tree) && b in u && c != []
    ensures Known(hash, ReceiveTree(hash, tree, b), c) <==>
            Known(hash, tree, c) || (Last(c) == b && IsGood(hash(b)) && b.prevHash == ChainHash(hash, Front(c)) && Known(hash, tree, Front(c)))
  {
    var grown := ReceiveTree(hash, tree, b);
    if Known(hash, grown, c) && !Known(hash, tree, c) {
      assert c == tree[b.prevHash] + [b];
      assert Front(c) == tree[b.prevHash];
      StoredChainHash(hash, u, tree, b.prevHash);
    }
    if Last(c) == b && b.prevHash == ChainHash(hash, Front(c)) && Known(hash, tree, Front(c)) {
      assert c == Front(c) + [b];
      if hash(b) in tree {
        KnownBlock(hash, u, tree, b);
      }
    }
  }

  /** As coded, a chain is in the tree exactly when it is a linked chain of good blocks that
      arrived in chain order. Arrival alone is not enough. */
  lemma {:induction false} KnownIffDeliveredInOrder(hash: Block -> Digest, u: iset<Block>, ds: seq<Block>, c: Chain)
    requires Ideal(hash, u) && forall b :: b in ds ==> b in u
    ensures Known(hash, TreeAfter(hash, ds), c) <==> Linked(hash, c) && InOrder(c, ds)
    decreases |ds|
  {
    if c == [] {
      TreeAfterOk(hash, u, ds);
    } else if ds == [] {
      assert INITIAL.tree == map[ZERO := []];
    } else {
      KnownIffDeliveredInOrder(hash, u, Front(ds), c);
      KnownIffDeliveredInOrder(hash, u, Front(ds), Front(c));
      TreeAfterOk(hash, u, Front(ds));
      KnownStep(hash, u, TreeAfter(hash, Front(ds)), Last(ds), c);
      LinkedFront(hash, c);
    }
  }

  // ---------- runs ----------

  /** The block an event brings to a node: one that arrives or one it mines. */
  function Arrival(e: Event): seq<Block> {
    match e
    case Deliver(b, _) => [b]
    case Claim(_) => []
    case Mine(b) => [b]
  }

  function Arrivals(events: seq<Event>): seq<Block> {
    if events == [] then [] else Arrivals(events[..|events| - 1]) + Arrival(events[|events| - 1])
  }

  lemma TreeAfterSnoc(hash: Block -> Digest, ds: seq<Block>, b: Block)
    ensures TreeAfter(hash, ds + [b]) == ReceiveTree(hash, TreeAfter(hash, ds), b)
  {
    assert Front(ds + [b]) == ds && Last(ds + [b]) == b;
  }

  lemma NextTree(hash: Block -> Digest, u: iset<Block>, l: Ledger, e: Event)
    requires Inv(hash, u, l) && Enabled(hash, u, l, e)
    ensures e.Claim? ==> Next(hash, l, e).tree == l.tree
    ensures e.Deliver? ==> Next(hash, l, e).tree == ReceiveTree(hash, l.tree, e.block)
    ensures e.Mine? ==> Next(hash, l, e).tree == ReceiveTree(hash, l.tree, e.mined)
  {
    match e
    case Deliver(b, k) => ReceivedTree(hash, u, l, b, k);
    case Claim(tx) =>
    case Mine(b) => MinedIsNew(hash, u, l, b);
  }

  /** On every run of a node the known blocks are a function of what has arrived or been mined, in
      this order; claims and reorganisations have no part in it. */
  lemma {:induction false} RunTree(hash: Block -> Digest, u: iset<Block>, states: seq<Ledger>, events: seq<Event>, i: nat)
    requires Ideal(hash, u) && IsRun(hash, u, states, events) && i < |states|
    ensures states[i].tree == TreeAfter(hash, Arrivals(events[..i]))
    ensures forall b :: b in Arrivals(events[..i]) ==> b in u
  {
    if i > 0 {
      RunTree(hash, u, states, events, i - 1);
      RunInv(hash, u, states, events, i - 1);
      var l, e, ds := states[i - 1], events[i - 1], Arrivals(events[..i - 1]);
      assert Enabled(hash, u, l, e) && states[i - 1 + 1] == Next(hash, l, e);
      assert events[..i][..i - 1] == events[..i - 1];
      NextTree(hash, u, l, e);
      match e
      case Deliver(b, _) => TreeAfterSnoc(hash, ds, b);
      case Claim(_) => assert ds + [] == ds;
      case Mine(b) => TreeAfterSnoc(hash, ds, b);
    }
  }

  /** On every run: a chain is known exactly when it is linked and its blocks came in chain order. */
  lemma RunKnownIff(hash: Block -> Digest, u: iset<Block>, states: seq<Ledger>, events: seq<Event>, i: nat, c: Chain)
    requires Ideal(hash, u) && IsRun(hash, u, states, events) && i < |states|
    ensures Known(hash, states[i].tree, c) <==> Linked(hash, c) && InOrder(c, Arrivals(events[..i]))
  {
    RunTree(hash, u, states, events, i);
    KnownIffDeliveredInOrder(hash, u, Arrivals(events[..i]), c);
  }

  // ---------- completeness ----------

  ghost predicate Arrived(c: Chain, ds: seq<Block>) {
    forall b :: b in c ==> b in ds
  }

  /** What is meant: every linked chain of good blocks that have arrived is known. */
  ghost predicate Complete(hash: Block -> Digest, tree: map<Digest, Chain>, ds: seq<Block>) {
    forall c {:trigger Linked(hash, c)} :: Linked(hash, c) && Arrived(c, ds) ==> Known(hash, tree, c)
  }

  /** The tree is complete if and only if every linked chain of arrived blocks arrived in chain order. */
  lemma CompleteIff(hash: Block -> Digest, u: iset<Block>, ds: seq<Block>)
    requires Ideal(hash, u) && forall b :: b in ds ==> b in u
    ensures Complete(hash, TreeAfter(hash, ds), ds) <==>
            forall c {:trigger Linked(hash, c)} :: Linked(hash, c) && Arrived(c, ds) ==> InOrder(c, ds)
  {
    forall c ensures Known(hash, TreeAfter(hash, ds), c) <==> Linked(hash, c) && InOrder(c, ds) {
      KnownIffDeliveredInOrder(hash, u, ds, c);
    }
  }

  /** Two sequences of arrivals, in any order, give the same known blocks if and only if the same
      linked chains arrived in chain order. */
  lemma SameTreeIff(hash: Block -> Digest, u: iset<Block>, ds: seq<Block>, es: seq<Block>)
    requires Ideal(hash, u) && (forall b :: b in ds ==> b in u) && (forall b :: b in es ==> b in u)
    ensures TreeAfter(hash, ds) == TreeAfter(hash, es) <==>
            forall c {:trigger Linked(hash, c)} :: Linked(hash, c) ==> (InOrder(c, ds) <==> InOrder(c, es))
  {
    var s, t := TreeAfter(hash, ds), TreeAfter(hash, es);
    forall c ensures (Known(hash, s, c) <==> Linked(hash, c) && InOrder(c, ds)) && (Known(hash, t, c) <==> Linked(hash, c) && InOrder(c, es)) {
      KnownIffDeliveredInOrder(hash, u, ds, c);
      KnownIffDeliveredInOrder(hash, u, es, c);
    }
    TreeAfterOk(hash, u, ds);
    TreeAfterOk(hash, u, es);
    if forall c {:trigger Linked(hash, c)} :: Linked(hash, c) ==> (InOrder(c, ds) <==> InOrder(c, es)) {
      KnownDetermines(hash, u, s, t);
      KnownDetermines(hash, u, t, s);
    }
  }

  /** Well-formed trees are determined by the chains they know. */
  lemma KnownDetermines(hash: Block -> Digest, u: iset<Block>, s: map<Digest, Chain>, t: map<Digest, Chain>)
    requires TreeOk(hash, u, s) && forall c :: Known(hash, s, c) ==> Known(hash, t, c)
    ensures forall h :: h in s ==> h in t && t[h] == s[h]
  {
    forall h | h in s ensures h in t && t[h] == s[h] {
      StoredChainHash(hash, u, s, h);
      assert Known(hash, s, s[h]);
    }
  }

  // ---------- the buffer on runs without mining ----------

  ghost predicate DeliveriesOnly(events: seq<Event>) {
    forall i :: 0 <= i < |events| ==> !events[i].Mine?
  }

  /** The block waits: it is good and has arrived, and it is not known. */
  ghost predicate ShouldWait(hash: Block -> Digest, tree: map<Digest, Chain>, ds: seq<Block>, b: Block) {
    b in ds && IsGood(hash(b)) && hash(b) !in tree
  }

  ghost predicate BufferExact(hash: Block -> Digest, tree: map<Digest, Chain>, waiting: map<Digest, Block>, ds: seq<Block>) {
    && (forall b :: ShouldWait(hash, tree, ds, b) ==> hash(b) in waiting && waiting[hash(b)] == b)
    && (forall h :: h in waiting ==> hash(waiting[h]) == h && ShouldWait(hash, tree, ds, waiting[h]))
  }

  lemma DeliverBufferExact(hash: Block -> Digest, u: iset<Block>, l: Ledger, ds: seq<Block>, b: Block, k: nat)
    requires Inv(hash, u, l) && b in u && (forall x :: x in ds ==> x in u) && BufferExact(hash, l.tree, l.waiting, ds)
    requires Acceptable(hash, l, b) ==> CommonPrefix(l.tail, l.tree[b.prevHash], k)
    ensures BufferExact(hash, Received(hash, l, b, k).tree, Received(hash, l, b, k).waiting, ds + [b])
  {
    var m := Received(hash, l, b, k);
    if Acceptable(hash, l, b) {
      AcceptedBuffer(hash, l, b, k);
    }
    forall x | ShouldWait(hash, m.tree, ds + [b], x) ensures hash(x) in m.waiting && m.waiting[hash(x)] == x {
      assert x in ds || x == b;
      assert x in ds ==> ShouldWait(hash, l.tree, ds, x);
    }
  }

  /** On every run without mining, what waits is exactly what has arrived, is good and is not known. */
  lemma {:induction false} RunBufferExact(hash: Block -> Digest, u: iset<Block>, states: seq<Ledger>, events: seq<Event>, i: nat)
    requires Ideal(hash, u) && IsRun(hash, u, states, events) && i < |states| && DeliveriesOnly(events)
    ensures BufferExact(hash, states[i].tree, states[i].waiting, Arrivals(events[..i]))
  {
    if i > 0 {
      RunBufferExact(hash, u, states, events, i - 1);
      RunTree(hash, u, states, events, i - 1);
      RunInv(hash, u, states, events, i - 1);
      var l, e, ds := states[i - 1], events[i - 1], Arrivals(events[..i - 1]);
      assert Enabled(hash, u, l, e) && states[i - 1 + 1] == Next(hash, l, e);
      assert events[..i][..i - 1] == events[..i - 1];
      if e.Deliver? {
        DeliverBufferExact(hash, u, l, ds, e.block, e.k);
      } else {
        assert ds + [] == ds;
      }
    }
  }

  /** On every run without mining, at every moment, failure included: no block waits beside its known
      parent if and only if the tree is complete. */
  lemma ClosedIffComplete(hash: Block -> Digest, u: iset<Block>, states: seq<Ledger>, events: seq<Event>, i: nat)
    requires Ideal(hash, u) && IsRun(hash, u, states, events) && i < |states| && DeliveriesOnly(events)
    ensures OrphansClosed(states[i]) <==> Complete(hash, states[i].tree, Arrivals(events[..i]))
  {
    RunBufferExact(hash, u, states, events, i);
    RunTree(hash, u, states, events, i);
    RunInv(hash, u, states, events, i);
    var l, ds := states[i], Arrivals(events[..i]);
    if OrphansClosed(l) {
      forall c | Linked(hash, c) && Arrived(c, ds) ensures Known(hash, l.tree, c) {
        ClosedKnows(hash, u, l.tree, l.waiting, ds, c);
      }
    }
    if Complete(hash, l.tree, ds) {
      forall h | h in l.waiting ensures l.waiting[h].prevHash !in l.tree {
        if l.waiting[h].prevHash in l.tree {
          WaitingBesideParent(hash, u, ds, l.waiting[h]);
        }
      }
    }
  }

  /** With a closed and exact buffer every linked chain of arrived blocks is known. */
  lemma {:induction false} ClosedKnows(
    hash: Block -> Digest, u: iset<Block>, tree: map<Digest, Chain>, waiting: map<Digest, Block>, ds: seq<Block>, c: Chain)
    requires Ideal(hash, u) && TreeOk(hash, u, tree) && (forall b :: b in ds ==> b in u)
    requires BufferExact(hash, tree, waiting, ds) && Closed(tree, waiting)
    requires Linked(hash, c) && Arrived(c, ds)
    ensures Known(hash, tree, c)
    decreases |c|
  {
    if c != [] {
      LinkedFront(hash, c);
      ClosedKnows(hash, u, tree, waiting, ds, Front(c));
      var b := Last(c);
      assert b in c;
      assert !ShouldWait(hash, tree, ds, b);
      KnownBlock(hash, u, tree, b);
      assert c == Front(c) + [b];
    }
  }

  /** A good arrived block with a known parent ends a linked chain of arrived blocks. */
  lemma WaitingBesideParent(hash: Block -> Digest, u: iset<Block>, ds: seq<Block>, b: Block)
    requires Ideal(hash, u) && (forall x :: x in ds ==> x in u) && b in ds && IsGood(hash(b))
    requires b.prevHash in TreeAfter(hash, ds)
    ensures var c := TreeAfter(hash, ds)[b.prevHash] + [b];
            Linked(hash, c) && Arrived(c, ds) && ChainHash(hash, c) == hash(b)
  {
    var tree := TreeAfter(hash, ds);
    var p := tree[b.prevHash];
    TreeAfterOk(hash, u, ds);
    StoredChainHash(hash, u, tree, b.prevHash);
    KnownIffDeliveredInOrder(hash, u, ds, p);
    InOrderArrived(p, ds);
    assert Front(p + [b]) == p && Last(p + [b]) == b;
    LinkedFront(hash, p + [b]);
  }

  /** The step appends no block that a buffered block waits for. */
  predicate NobodyWaitsFor(hash: Block -> Digest, l: Ledger, e: Event) {
    match e
    case Deliver(b, _) => Acceptable(hash, l, b) ==> forall h :: h in l.waiting ==> l.waiting[h].prevHash != hash(b)
    case Claim(_) => true
    case Mine(b) => forall h :: h in l.waiting ==> l.waiting[h].prevHash != hash(b)
  }

  lemma StepClosedIff(hash: Block -> Digest, u: iset<Block>, l: Ledger, e: Event)
    requires Inv(hash, u, l) && Enabled(hash, u, l, e) && OrphansClosed(l)
    ensures OrphansClosed(Next(hash, l, e)) <==> NobodyWaitsFor(hash, l, e)
  {
    NextTree(hash, u, l, e);
    match e
    case Deliver(b, k) => OrphansClosedIff(hash, u, l, b, k);
    case Claim(_) =>
    case Mine(b) => MinedIsNew(hash, u, l, b);
  }

  /** On every run, mining included: up to any moment no block has waited beside its known parent if and
      only if no block was ever appended, received or mined, that a buffered block was waiting for. */
  lemma {:induction false} RunClosedIff(hash: Block -> Digest, u: iset<Block>, states: seq<Ledger>, events: seq<Event>, n: nat)
    requires Ideal(hash, u) && IsRun(hash, u, states, events) && n < |states|
    ensures (forall i :: 0 <= i <= n ==> OrphansClosed(states[i])) <==>
            (forall i :: 0 <= i < n ==> NobodyWaitsFor(hash, states[i], events[i]))
  {
    if n > 0 {
      RunClosedIff(hash, u, states, events, n - 1);
      var l, e := states[n - 1], events[n - 1];
      RunInv(hash, u, states, events, n - 1);
      assert Enabled(hash, u, l, e) && states[n - 1 + 1] == Next(hash, l, e);
      if OrphansClosed(l) {
        StepClosedIff(hash, u, l, e);
      }
    }
  }

  // ---------- order independence ----------

  /** Every block arrives for the first time after some arrival of its parent, if the parent arrives at all. */
  ghost predicate ParentFirst(hash: Block -> Digest, ds: seq<Block>) {
    forall i, j :: 0 <= i < |ds| && 0 <= j < |ds| && ds[i].prevHash == hash(ds[j]) ==> ds[j] in ds[..i]
  }

  /** Such orders exist: a linked chain delivered from the root on. */
  lemma LinkedIsParentFirst(hash: Block -> Digest, u: iset<Block>, c: Chain)
    requires Ideal(hash, u) && (forall b :: b in c ==> b in u) && Linked(hash, c)
    ensures ParentFirst(hash, c)
  {
    forall i, j | 0 <= i < |c| && 0 <= j < |c| && c[i].prevHash == hash(c[j]) ensures c[j] in c[..i] {
      assert c[j] in c && LinkedAt(hash, c, i);
      if i > 0 {
        assert Last(c[..i]) == c[i - 1] && c[i - 1] in c;
        assert c[..i][i - 1] == c[j];
      }
    }
  }

  lemma {:induction false} InOrderLonger(c: Chain, ds: seq<Block>, i: nat)
    requires i <= |ds| && InOrder(c, ds[..i])
    ensures InOrder(c, ds)
    decreases |ds| - i
  {
    if i == |ds| {
      assert ds[..i] == ds;
    } else {
      assert Front(ds[..i + 1]) == ds[..i];
      InOrderLonger(c, ds, i + 1);
    }
  }

  /** With parents first, a linked chain of arrived blocks has arrived in order by the time its
      last block first arrives. */
  lemma {:induction false} ParentFirstInOrder(hash: Block -> Digest, ds: seq<Block>, c: Chain, i: nat)
    requires ParentFirst(hash, ds) && Linked(hash, c) && (forall b :: b in c ==> b in ds)
    requires c != [] && i < |ds| && ds[i] == Last(c)
    ensures InOrder(c, ds[..i + 1])
    decreases |c|
  {
    assert Front(ds[..i + 1]) == ds[..i];
    if |c| > 1 {
      LinkedFront(hash, c);
      var p := Last(Front(c));
      assert p == c[|c| - 2] && p in c;
      var j :| 0 <= j < |ds| && ds[j] == p;
      assert p in ds[..i];
      var m :| 0 <= m < i && ds[..i][m] == p;
      ParentFirstInOrder(hash, ds, Front(c), m);
      assert ds[..m + 1] == ds[..i][..m + 1];
      InOrderLonger(Front(c), ds[..i], m + 1);
    }
  }

  /** When parents come first, the tree holds exactly the linked chains of good blocks that have
      arrived, whatever the rest of the order and however often blocks are repeated. */
  lemma ParentFirstComplete(hash: Block -> Digest, u: iset<Block>, ds: seq<Block>, c: Chain)
    requires Ideal(hash, u) && (forall b :: b in ds ==> b in u) && ParentFirst(hash, ds)
    ensures Known(hash, TreeAfter(hash, ds), c) <==> Linked(hash, c) && forall b :: b in c ==> b in ds
  {
    KnownIffDeliveredInOrder(hash, u, ds, c);
    if Linked(hash, c) && (forall b :: b in c ==> b in ds) && c != [] {
      assert Last(c) in c;
      var i :| 0 <= i < |ds| && ds[i] == Last(c);
      ParentFirstInOrder(hash, ds, c, i);
      InOrderLonger(c, ds, i + 1);
    }
    if InOrder(c, ds) {
      InOrderArrived(c, ds);
    }
  }

  lemma {:induction false} InOrderArrived(c: Chain, ds: seq<Block>)
    requires InOrder(c, ds)
    ensures forall b :: b in c ==> b in ds
    decreases |ds|
  {
    if c != [] {
      if InOrder(c, Front(ds)) {
        InOrderArrived(c, Front(ds));
      } else {
        InOrderArrived(Front(c), Front(ds));
        assert c == Front(c) + [Last(c)];
      }
      assert ds == Front(ds) + [Last(ds)];
    }
  }

  /** Two deliveries of the same blocks with parents first give the same known blocks. */
  lemma OrderIndependent(hash: Block -> Digest, u: iset<Block>, ds: seq<Block>, es: seq<Block>)
    requires Ideal(hash, u) && (forall b :: b in ds ==> b in u) && (forall b :: b in ds <==> b in es)
    requires ParentFirst(hash, ds) && ParentFirst(hash, es)
    ensures TreeAfter(hash, ds) == TreeAfter(hash, es)
  {
    SubTree(hash, u, ds, es);
    SubTree(hash, u, es, ds);
  }

  lemma SubTree(hash: Block -> Digest, u: iset<Block>, ds: seq<Block>, es: seq<Block>)
    requires Ideal(hash, u) && (forall b :: b in ds ==> b in u) && (forall b :: b in ds <==> b in es)
    requires ParentFirst(hash, ds) && ParentFirst(hash, es)
    ensures forall h :: h in TreeAfter(hash, ds) ==> h in TreeAfter(hash, es) && TreeAfter(hash, es)[h] == TreeAfter(hash, ds)[h]
  {
    var s, t := TreeAfter(hash, ds), TreeAfter(hash, es);
    TreeAfterOk(hash, u, ds);
    forall h | h in s ensures h in t && t[h] == s[h] {
      StoredChainHash(hash, u, s, h);
      ParentFirstComplete(hash, u, ds, s[h]);
      ParentFirstComplete(hash, u, es, s[h]);
    }
  }
}
