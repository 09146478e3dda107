// What a node does when InitFromSlice has one loop variable for all iterations (Go before 1.22):
// the claims a reorganisation takes back are read from sets whose entries all point at the last
// transaction of their block.

module SharedVariable {
  import opened Messages
  import opened TransactionsSets
  import opened Ledgers
  import opened ChainNetwork

  /** The claims of consecutive blocks as their nodes' sets hold them. */
  function SharedClaims(c: Chain): map<Name, TxPublish> {
    if c == [] then map[] else SharedClaims(c[1..]) + TxMapShared(c[0].transactions)
  }

  /** AddBlock: only a reorganisation reads the entries of the nodes' sets. */
  function SharedReceived(hash: Block -> Digest, l: Ledger, b: Block, k: nat): Ledger
    requires Acceptable(hash, l, b) ==> CommonPrefix(l.tail, l.tree[b.prevHash], k)
  {
    var m := Received(hash, l, b, k);
    if Acceptable(hash, l, b) && Reorganises(hash, l, b) then
      m.(pending := l.pending + SharedClaims(l.tail[k..]) - ChainNames((l.tree[b.prevHash] + [b])[k..]))
    else m
  }

  function SharedNext(hash: Block -> Digest, l: Ledger, e: Event): Ledger
    requires e.Deliver? && Acceptable(hash, l, e.block) ==> CommonPrefix(l.tail, l.tree[e.block.prevHash], e.k)
  {
    match e
    case Deliver(b, k) => SharedReceived(hash, l, b, k)
    case _ => Next(hash, l, e)
  }

  ghost predicate SharedStep(hash: Block -> Digest, u: iset<Block>, l: Ledger, e: Event, m: Ledger) {
    Enabled(hash, u, l, e) && m == SharedNext(hash, l, e)
  }

  ghost predicate IsSharedRun(hash: Block -> Digest, u: iset<Block>, states: seq<Ledger>, events: seq<Event>) {
    && |states| == |events| + 1
    && states[0] == INITIAL
    && forall i :: 0 <= i < |events| ==> SharedStep(hash, u, states[i], events[i], states[i + 1])
  }

  // ---------- mining from entries that claim other names ----------

  /** The names the entries of a set claim; its keys when it is well keyed. */
  function EntryNames(m: map<Name, TxPublish>): set<Name> {
    set n | n in m :: m[n].name
  }

  predicate ClaimsItsKeys(m: map<Name, TxPublish>) {
    EntryNames(m) == m.Keys
  }

  lemma {:induction false} CountDistinct(ks: seq<Name>)
    requires forall i, j :: 0 <= i < j < |ks| ==> ks[i] != ks[j]
    ensures |set n | n in ks| == |ks|
  {
    if ks != [] {
      var front, last := ks[..|ks| - 1], ks[|ks| - 1];
      CountDistinct(front);
      assert (set n | n in ks) == (set n | n in front) + {last};
    }
  }

  lemma ListedSize(r: seq<TxPublish>, m: map<Name, TxPublish>, ks: seq<Name>)
    requires ListedBy(r, m, ks)
    ensures |r| == |m.Keys|
  {
    CountDistinct(ks);
    assert (set n | n in ks) == m.Keys;
  }

  lemma ListedNames(r: seq<TxPublish>, m: map<Name, TxPublish>, ks: seq<Name>)
    requires ListedBy(r, m, ks)
    ensures Names(r) == EntryNames(m)
  {
    forall n | n in m ensures m[n].name in Names(r) {
      var i :| 0 <= i < |ks| && ks[i] == n;
      assert r[i] in r;
    }
    forall i | 0 <= i < |r| ensures r[i].name in EntryNames(m) {
      assert ks[i] in ks;
    }
  }

  lemma NamesOfListing(r: seq<TxPublish>, m: map<Name, TxPublish>)
    requires Listing(r, m)
    ensures Names(r) == EntryNames(m) && |r| == |m.Keys|
  {
    var ks :| ListedBy(r, m, ks);
    ListedSize(r, m, ks);
    ListedNames(r, m, ks);
  }

  lemma OneMoreName(r: seq<TxPublish>, t: TxPublish)
    ensures Names(r + [t]) == Names(r) + {t.name}
    ensures NamesOnce(r + [t]) <==> NamesOnce(r) && t.name !in Names(r)
  {
    var more := r + [t];
    assert more[|r|] == t && forall i :: 0 <= i < |r| ==> more[i] == r[i];
    forall x | x in Names(r) + {t.name} ensures x in Names(more) {
      if x != t.name {
        var i :| 0 <= i < |r| && r[i].name == x;
        assert more[i] in more;
      } else {
        assert t in more;
      }
    }
    if t.name in Names(r) {
      var i :| 0 <= i < |r| && r[i].name == t.name;
      assert more[i].name == more[|r|].name;
    } else {
      forall i | 0 <= i < |r| ensures r[i].name != t.name {
        assert r[i] in r;
      }
    }
  }

  /** A slice claims each name once when it claims as many names as it has transactions. */
  lemma {:induction false} NamesOnceIffAsMany(r: seq<TxPublish>)
    ensures |Names(r)| <= |r|
    ensures NamesOnce(r) <==> |Names(r)| == |r|
  {
    if r != [] {
      var front, last := r[..|r| - 1], r[|r| - 1];
      NamesOnceIffAsMany(front);
      OneMoreName(front, last);
      assert r == front + [last];
    }
  }

  lemma SameSize(a: set<Name>, b: set<Name>)
    requires a <= b && |a| == |b|
    ensures a == b
  {
    assert |b - a| == |b| - |a|;
  }

  /** Mining, with names unique so far: the new block claims new names, each once, and no pending name is
      lost, exactly when the pending entries claim exactly the names they are kept under. */
  lemma MiningKeepsNamesIff(hash: Block -> Digest, l: Ledger, b: Block)
    requires Mineable(hash, l, b) && Unique(l.tail) && l.pending.Keys !! ChainNames(l.tail)
    ensures Unique(l.tail + [b]) && Reserved(l) <= Reserved(Mined(hash, l, b)) <==> ClaimsItsKeys(l.pending)
  {
    var r := b.transactions;
    NamesOfListing(r, l.pending);
    NamesOnceIffAsMany(r);
    ExtensionUniqueIff(l.tail, b);
    ChainNamesAppend(l.tail, [b]);
    ChainNamesOne(b);
    if Unique(l.tail + [b]) && Reserved(l) <= Reserved(Mined(hash, l, b)) {
      assert l.pending.Keys <= Names(r);
      SameSize(l.pending.Keys, Names(r));
    }
  }

  // ---------- runs: what keeps the names ----------

  lemma {:induction false} SharedClaimsKeys(c: Chain)
    ensures SharedClaims(c).Keys == ChainNames(c)
  {
    if c != [] {
      SharedClaimsKeys(c[1..]);
      assert c == [c[0]] + c[1..];
      ChainNamesAppend([c[0]], c[1..]);
      ChainNamesOne(c[0]);
    }
  }

  /** The two ledgers differ at most in what the entries of their pending sets claim. */
  predicate SameButEntries(l: Ledger, m: Ledger) {
    l.tree == m.tree && l.tail == m.tail && l.waiting == m.waiting && l.pending.Keys == m.pending.Keys
  }

  /** The ledger with each pending entry replaced by one under its own name. */
  function Rekeyed(l: Ledger): Ledger {
    l.(pending := map n | n in l.pending :: TxPublish(n, []))
  }

  /** What AloneOk says, but for the entries of the pending set. */
  ghost predicate SharedOk(hash: Block -> Digest, u: iset<Block>, l: Ledger) {
    AloneOk(hash, u, Rekeyed(l))
  }

  lemma SameOk(hash: Block -> Digest, u: iset<Block>, l: Ledger, m: Ledger)
    requires SameButEntries(l, m) && AloneOk(hash, u, l)
    ensures SharedOk(hash, u, m)
  {
  }

  lemma SameReceived(hash: Block -> Digest, l: Ledger, b: Block, k: nat)
    requires Acceptable(hash, l, b) ==> CommonPrefix(l.tail, l.tree[b.prevHash], k)
    ensures SameButEntries(Received(hash, Rekeyed(l), b, k), SharedReceived(hash, l, b, k))
  {
    var own := Rekeyed(l);
    assert own.pending.Keys == l.pending.Keys;
    if Acceptable(hash, l, b) && Reorganises(hash, l, b) {
      SharedClaimsKeys(l.tail[k..]);
      ClaimsKeys(l.tail[k..]);
    }
  }

  /** What the entries claim has no influence on the other steps. */
  lemma SameStep(hash: Block -> Digest, u: iset<Block>, l: Ledger, e: Event, m: Ledger)
    requires SharedStep(hash, u, l, e, m) && !e.Mine?
    ensures Enabled(hash, u, Rekeyed(l), e) && SameButEntries(Next(hash, Rekeyed(l), e), m)
    ensures StepClaimsNew(hash, Rekeyed(l), e) <==> StepClaimsNew(hash, l, e)
  {
    if e.Deliver? {
      SameReceived(hash, l, e.block, e.k);
    }
  }

  /** The step accepts only new claims, and mines only from entries that claim their keys. */
  predicate KeepsNames(hash: Block -> Digest, l: Ledger, e: Event) {
    StepClaimsNew(hash, l, e) && (e.Mine? ==> ClaimsItsKeys(l.pending))
  }

  /** Afterwards names are unique on every known chain and no reserved name has been lost. */
  ghost predicate NamesKept(l: Ledger, m: Ledger) {
    AllUnique(m.tree) && Reserved(l) <= Reserved(m)
  }

  lemma SharedStepIff(hash: Block -> Digest, u: iset<Block>, l: Ledger, e: Event, m: Ledger)
    requires SharedOk(hash, u, l) && SharedStep(hash, u, l, e, m)
    ensures NamesKept(l, m) <==> KeepsNames(hash, l, e)
    ensures KeepsNames(hash, l, e) ==> SharedOk(hash, u, m)
  {
    var own := Rekeyed(l);
    if e.Mine? {
      SharedMineIff(hash, u, l, e.mined);
    } else {
      SameStep(hash, u, l, e, m);
      AloneStepIff(hash, u, own, e);
      StepMonotone(hash, u, own, e);
      if KeepsNames(hash, l, e) {
        SameOk(hash, u, Next(hash, own, e), m);
      }
    }
  }

  lemma GrownUniqueIff(tree: map<Digest, Chain>, h: Digest, c: Chain)
    requires AllUnique(tree)
    ensures AllUnique(tree[h := c]) <==> Unique(c)
  {
    var grown := tree[h := c];
    assert grown[h] == c;
    assert forall x :: x in grown && x != h ==> x in tree && grown[x] == tree[x];
  }

  lemma MineKeepsIff(hash: Block -> Digest, l: Ledger, b: Block)
    requires Mineable(hash, l, b) && AllUnique(l.tree) && Unique(l.tail) && l.pending.Keys !! ChainNames(l.tail)
    ensures NamesKept(l, Mined(hash, l, b)) <==> ClaimsItsKeys(l.pending)
  {
    MiningKeepsNamesIff(hash, l, b);
    GrownUniqueIff(l.tree, hash(b), l.tail + [b]);
  }

  lemma SharedMineIff(hash: Block -> Digest, u: iset<Block>, l: Ledger, b: Block)
    requires SharedOk(hash, u, l) && b in u && Mineable(hash, l, b)
    ensures NamesKept(l, Mined(hash, l, b)) <==> ClaimsItsKeys(l.pending)
    ensures NamesKept(l, Mined(hash, l, b)) ==> SharedOk(hash, u, Mined(hash, l, b))
  {
    var own := Rekeyed(l);
    TailUnique(hash, u, own.tree, own);
    assert own.pending.Keys == l.pending.Keys;
    MineKeepsIff(hash, l, b);
    MinedInv(hash, u, own, b);
    assert Mined(hash, own, b) == Mined(hash, l, b);
    if NamesKept(l, Mined(hash, l, b)) {
      SharedMinedOk(hash, u, Mined(hash, l, b));
    }
  }

  lemma SharedMinedOk(hash: Block -> Digest, u: iset<Block>, m: Ledger)
    requires Inv(hash, u, m) && AllUnique(m.tree) && m.pending == map[]
    ensures SharedOk(hash, u, m)
  {
    assert Rekeyed(m) == m;
  }

  lemma {:induction false} SharedRunOk(hash: Block -> Digest, u: iset<Block>, states: seq<Ledger>, events: seq<Event>, n: nat)
    requires Ideal(hash, u) && IsSharedRun(hash, u, states, events) && n < |states|
    requires forall i :: 0 <= i < n ==> KeepsNames(hash, states[i], events[i])
    ensures SharedOk(hash, u, states[n])
  {
    if n == 0 {
      InitialInv(hash, u);
      assert Rekeyed(INITIAL) == INITIAL;
    } else {
      SharedRunOk(hash, u, states, events, n - 1);
      assert SharedStep(hash, u, states[n - 1], events[n - 1], states[n - 1 + 1]);
      SharedStepIff(hash, u, states[n - 1], events[n - 1], states[n]);
    }
  }

  lemma SharedStepAt(hash: Block -> Digest, u: iset<Block>, states: seq<Ledger>, events: seq<Event>, n: nat)
    requires Ideal(hash, u) && IsSharedRun(hash, u, states, events) && n < |events|
    requires forall i :: 0 <= i < n ==> KeepsNames(hash, states[i], events[i])
    ensures NamesKept(states[n], states[n + 1]) <==> KeepsNames(hash, states[n], events[n])
  {
    SharedRunOk(hash, u, states, events, n);
    assert SharedStep(hash, u, states[n], events[n], states[n + 1]);
    SharedStepIff(hash, u, states[n], events[n], states[n + 1]);
  }

  /** On any run with the shared variable, with blocks of anybody's making: up to any moment names have been
      unique on all known chains and no reserved name has been lost if and only if every accepted
      block made new claims only and every mining started from entries that claim their keys. */
  lemma {:induction false} SharedRunKeepsNamesIff(hash: Block -> Digest, u: iset<Block>, states: seq<Ledger>, events: seq<Event>, n: nat)
    requires Ideal(hash, u) && IsSharedRun(hash, u, states, events) && n < |states|
    ensures (forall i :: 0 <= i < n ==> NamesKept(states[i], states[i + 1])) <==>
            (forall i :: 0 <= i < n ==> KeepsNames(hash, states[i], events[i]))
  {
    if n > 0 {
      SharedRunKeepsNamesIff(hash, u, states, events, n - 1);
      if forall i :: 0 <= i < n - 1 ==> KeepsNames(hash, states[i], events[i]) {
        SharedStepAt(hash, u, states, events, n - 1);
      }
    }
  }

  // ---------- where entries under other names come from ----------

  /** The claims of these blocks that the branch does not make are all their blocks' last ones. */
  predicate LastOnly(c: Chain, branch: set<Name>) {
    forall i, t :: 0 <= i < |c| && t in c[i].transactions && t.name !in branch ==> t.name == LastName(c[i])
  }

  /** The name of the last transaction, for a block that has any. */
  function LastName(b: Block): Name {
    if b.transactions == [] then [] else b.transactions[|b.transactions| - 1].name
  }

  /** What a block of a chain with unique names contributes to the claims of the chain. */
  lemma {:induction false} ClaimsAt(c: Chain, i: nat, n: Name)
    requires Unique(c) && i < |c| && n in BlockNames(c[i])
    ensures n in SharedClaims(c) && SharedClaims(c)[n] == TxMapShared(c[i].transactions)[n]
    ensures n in Claims(c) && Claims(c)[n] == TxMap(c[i].transactions)[n]
    decreases |c|
  {
    if i > 0 {
      assert forall j :: 0 <= j < |c| - 1 ==> c[1..][j] == c[j + 1];
      ClaimsAt(c[1..], i - 1, n);
      assert BlockNames(c[0]) !! BlockNames(c[i]);
    }
  }

  lemma LastOfBlock(txs: seq<TxPublish>, n: Name)
    requires NamesOnce(txs) && n in Names(txs) && txs[|txs| - 1].name == n
    ensures TxMap(txs)[n] == txs[|txs| - 1]
  {
    var t := TxMap(txs)[n];
    var j :| 0 <= j < |txs| && txs[j] == t;
    assert j == |txs| - 1;
  }

  lemma {:induction false} SharedEntry(c: Chain, i: nat, n: Name)
    requires Unique(c) && i < |c| && n in BlockNames(c[i])
    ensures n in SharedClaims(c) && SharedClaims(c)[n].name == LastName(c[i])
    ensures n in Claims(c) && (LastName(c[i]) == n ==> SharedClaims(c)[n] == Claims(c)[n])
  {
    var txs := c[i].transactions;
    assert txs != [] && TxMapShared(txs)[n].name == LastName(c[i]);
    ClaimsAt(c, i, n);
    if LastName(c[i]) == n {
      LastOfBlock(txs, n);
    }
  }

  lemma RollbackSame(pending: map<Name, TxPublish>, c: Chain, branch: set<Name>)
    requires Unique(c) && LastOnly(c, branch)
    ensures pending + SharedClaims(c) - branch == pending + Claims(c) - branch
  {
    SharedClaimsKeys(c);
    ClaimsKeys(c);
    forall n | n in ChainNames(c) && n !in branch ensures SharedClaims(c)[n] == Claims(c)[n] {
      var i :| 0 <= i < |c| && n in BlockNames(c[i]);
      var t :| t in c[i].transactions && t.name == n;
      SharedEntry(c, i, n);
    }
    var x, y := SharedClaims(c), Claims(c);
    SameAfter(pending, x, y, branch);
  }

  lemma SameAfter(pending: map<Name, TxPublish>, x: map<Name, TxPublish>, y: map<Name, TxPublish>, branch: set<Name>)
    requires x.Keys == y.Keys && forall n :: n in x && n !in branch ==> x[n] == y[n]
    ensures pending + x - branch == pending + y - branch
  {
  }

  lemma RollbackNeedsLast(pending: map<Name, TxPublish>, c: Chain, branch: set<Name>)
    requires Unique(c) && WellKeyed(pending + SharedClaims(c) - branch)
    ensures LastOnly(c, branch)
  {
    forall i, t | 0 <= i < |c| && t in c[i].transactions && t.name !in branch ensures t.name == LastName(c[i]) {
      SharedEntry(c, i, t.name);
      assert t.name in pending + SharedClaims(c) - branch;
    }
  }

  /** Taking claims back leaves entries under their own names exactly when the claims that the new branch
      does not make are their blocks' last ones; then the shared variable makes no difference. */
  lemma RollbackIff(pending: map<Name, TxPublish>, c: Chain, branch: set<Name>)
    requires WellKeyed(pending) && Unique(c)
    ensures WellKeyed(pending + SharedClaims(c) - branch) <==> LastOnly(c, branch)
    ensures pending + SharedClaims(c) - branch == pending + Claims(c) - branch <==> LastOnly(c, branch)
  {
    assert WellKeyed(pending + Claims(c) - branch);
    if LastOnly(c, branch) {
      RollbackSame(pending, c, branch);
    }
    if WellKeyed(pending + SharedClaims(c) - branch) {
      RollbackNeedsLast(pending, c, branch);
    }
  }

  /** The step takes back no claim but its block's last one, unless the new branch makes it. */
  ghost predicate TakesBackLastOnly(hash: Block -> Digest, l: Ledger, e: Event) {
    e.Deliver? && Acceptable(hash, l, e.block) && Reorganises(hash, l, e.block)
    && CommonPrefix(l.tail, l.tree[e.block.prevHash], e.k) ==>
      LastOnly(l.tail[e.k..], ChainNames((l.tree[e.block.prevHash] + [e.block])[e.k..]))
  }

  lemma SuffixUnique(c: Chain, k: nat)
    requires Unique(c) && k <= |c|
    ensures Unique(c[k..])
  {
    assert forall i :: 0 <= i < |c| - k ==> c[k..][i] == c[k + i];
  }

  /** One step with the shared variable is a step without it exactly when it takes back no other claim. */
  lemma SharedStepSameIff(hash: Block -> Digest, u: iset<Block>, l: Ledger, e: Event)
    requires Inv(hash, u, l) && Enabled(hash, u, l, e) && Unique(l.tail)
    ensures SharedNext(hash, l, e) == Next(hash, l, e) <==> TakesBackLastOnly(hash, l, e)
  {
    if e.Deliver? && Acceptable(hash, l, e.block) && Reorganises(hash, l, e.block) {
      SuffixUnique(l.tail, e.k);
      RollbackIff(l.pending, l.tail[e.k..], ChainNames((l.tree[e.block.prevHash] + [e.block])[e.k..]));
    }
  }

  ghost predicate PlainStep(hash: Block -> Digest, u: iset<Block>, l: Ledger, e: Event, m: Ledger) {
    Enabled(hash, u, l, e) && m == Next(hash, l, e)
  }

  lemma {:induction false} PlainRunOk(hash: Block -> Digest, u: iset<Block>, states: seq<Ledger>, events: seq<Event>, n: nat)
    requires Ideal(hash, u) && |states| == |events| + 1 && states[0] == INITIAL && n < |states|
    requires forall i :: 0 <= i < n ==> PlainStep(hash, u, states[i], events[i], states[i + 1])
    requires forall i :: 0 <= i < n ==> StepClaimsNew(hash, states[i], events[i])
    ensures AloneOk(hash, u, states[n])
  {
    if n == 0 {
      InitialInv(hash, u);
    } else {
      PlainRunOk(hash, u, states, events, n - 1);
      assert PlainStep(hash, u, states[n - 1], events[n - 1], states[n - 1 + 1]);
      AloneStepIff(hash, u, states[n - 1], events[n - 1]);
    }
  }

  lemma {:induction false} PlainStepsIff(hash: Block -> Digest, u: iset<Block>, states: seq<Ledger>, events: seq<Event>, n: nat)
    requires Ideal(hash, u) && IsSharedRun(hash, u, states, events) && n < |states|
    requires forall i :: 0 <= i < n ==> StepClaimsNew(hash, states[i], events[i])
    ensures (forall i :: 0 <= i < n ==> PlainStep(hash, u, states[i], events[i], states[i + 1])) <==>
            (forall i :: 0 <= i < n ==> TakesBackLastOnly(hash, states[i], events[i]))
  {
    if n > 0 {
      var l, e := states[n - 1], events[n - 1];
      assert SharedStep(hash, u, l, e, states[n - 1 + 1]);
      PlainStepsIff(hash, u, states, events, n - 1);
      if forall i :: 0 <= i < n - 1 ==> PlainStep(hash, u, states[i], events[i], states[i + 1]) {
        PlainRunOk(hash, u, states, events, n - 1);
        TailUnique(hash, u, l.tree, l);
        SharedStepSameIff(hash, u, l, e);
      }
    }
  }

  /** A run with the shared variable whose accepted blocks make new claims only is a run without it if and
      only if no switch of forks takes back another claim than its block's last one, unless the new
      branch makes that claim. */
  lemma SharedRunIsRunIff(hash: Block -> Digest, u: iset<Block>, states: seq<Ledger>, events: seq<Event>)
    requires Ideal(hash, u) && IsSharedRun(hash, u, states, events)
    requires forall i :: 0 <= i < |events| ==> StepClaimsNew(hash, states[i], events[i])
    ensures IsRun(hash, u, states, events) <==> forall i :: 0 <= i < |events| ==> TakesBackLastOnly(hash, states[i], events[i])
  {
    PlainStepsIff(hash, u, states, events, |events|);
    if IsRun(hash, u, states, events) {
      forall i | 0 <= i < |events| ensures PlainStep(hash, u, states[i], events[i], states[i + 1]) {
        assert Enabled(hash, u, states[i], events[i]) && states[i + 1] == Next(hash, states[i], events[i]);
      }
    }
    if forall i :: 0 <= i < |events| ==> TakesBackLastOnly(hash, states[i], events[i]) {
      forall i | 0 <= i < |events| ensures Enabled(hash, u, states[i], events[i]) && states[i + 1] == Next(hash, states[i], events[i]) {
        assert PlainStep(hash, u, states[i], events[i], states[i + 1]);
      }
    }
  }

  // ---------- a run that loses one name and reserves another twice ----------

  /** Three claims and four blocks: the node mines x with two claims; y and z, mined elsewhere, make a
      longer fork on which the second claim stands; then the node mines w. */
  datatype Scene = Scene(a: TxPublish, b: TxPublish, c: TxPublish, x: Block, y: Block, z: Block, w: Block) {
    ghost predicate Ok(hash: Block -> Digest, u: iset<Block>) {
      && Ideal(hash, u) && x in u && y in u && z in u && w in u
      && IsGood(hash(x)) && IsGood(hash(y)) && IsGood(hash(z)) && IsGood(hash(w))
      && a.name != b.name && a.name != c.name && b.name != c.name
      && x.prevHash == ZERO && x.transactions == [a, b]
      && y.prevHash == ZERO && y.transactions == [b]
      && z.prevHash == hash(y) && z.transactions == [c]
      && w.prevHash == hash(z) && w.transactions == [b]
    }

    function Events(): seq<Event> {
      [Claim(a), Claim(b), Mine(x), Deliver(y, 0), Deliver(z, 0), Mine(w)]
    }

    function AfterClaims(): Ledger {
      INITIAL.(pending := map[a.name := a, b.name := b])
    }

    function AfterX(hash: Block -> Digest): Ledger {
      INITIAL.(tree := INITIAL.tree[hash(x) := [x]], tail := [x])
    }

    function AfterY(hash: Block -> Digest): Ledger {
      AfterX(hash).(tree := AfterX(hash).tree[hash(y) := [y]])
    }

    function AfterZ(hash: Block -> Digest): Ledger {
      AfterY(hash).(tree := AfterY(hash).tree[hash(z) := [y, z]], tail := [y, z], pending := map[a.name := b])
    }

    function States(hash: Block -> Digest): seq<Ledger> {
      [INITIAL, INITIAL.(pending := map[a.name := a]), AfterClaims(), AfterX(hash), AfterY(hash), AfterZ(hash), Mined(hash, AfterZ(hash), w)]
    }

    lemma Hashes(hash: Block -> Digest, u: iset<Block>)
      requires Ok(hash, u)
      ensures ZERO != hash(x) && ZERO != hash(y) && ZERO != hash(z)
      ensures hash(x) != hash(y) && hash(x) != hash(z) && hash(y) != hash(z)
    {
      assert |x.transactions| != |y.transactions| && |x.transactions| != |z.transactions|;
    }

    lemma TakeClaims(hash: Block -> Digest, u: iset<Block>)
      requires a.name != b.name
      ensures SharedStep(hash, u, INITIAL, Claim(a), INITIAL.(pending := map[a.name := a]))
      ensures SharedStep(hash, u, INITIAL.(pending := map[a.name := a]), Claim(b), AfterClaims())
    {
    }

    lemma MineX(hash: Block -> Digest, u: iset<Block>)
      requires Ok(hash, u)
      ensures SharedStep(hash, u, AfterClaims(), Mine(x), AfterX(hash))
    {
      assert ListedBy([a, b], AfterClaims().pending, [a.name, b.name]);
      assert a.name in AfterClaims().pending;
      assert [] + [x] == [x];
    }

    lemma ReceiveY(hash: Block -> Digest, u: iset<Block>)
      requires Ok(hash, u)
      ensures SharedStep(hash, u, AfterX(hash), Deliver(y, 0), AfterY(hash))
      ensures StepClaimsNew(hash, AfterX(hash), Deliver(y, 0))
    {
      Hashes(hash, u);
      assert [] + [y] == [y];
    }

    lemma SharedClaimsOfX()
      requires x.transactions == [a, b]
      ensures SharedClaims([x]) == map[a.name := b, b.name := b]
    {
      assert a in x.transactions && b in x.transactions;
      assert [x][1..] == [];
      assert SharedClaims([x]) == SharedClaims([]) + TxMapShared(x.transactions);
    }

    /** What the switch to the longer fork leaves pending. */
    lemma PendingAfterZ(hash: Block -> Digest, u: iset<Block>)
      requires Ok(hash, u)
      ensures SharedClaims([x]) - ChainNames([y, z]) == map[a.name := b]
    {
      assert [y, z] == [y] + [z];
      ChainNamesAppend([y], [z]);
      ChainNamesOne(y);
      ChainNamesOne(z);
      SharedClaimsOfX();
      assert b in y.transactions;
    }

    lemma ReceiveZ(hash: Block -> Digest, u: iset<Block>)
      requires Ok(hash, u)
      ensures SharedStep(hash, u, AfterY(hash), Deliver(z, 0), AfterZ(hash))
    {
      Hashes(hash, u);
      PendingAfterZ(hash, u);
      var l := AfterY(hash);
      assert l.tree[z.prevHash] + [z] == [y, z];
      assert [y, z][0..] == [y, z] && [x][0..] == [x];
      assert Reorganises(hash, l, z);
      assert SharedReceived(hash, l, z, 0).tree == AfterZ(hash).tree;
    }

    lemma ZClaimsNew(hash: Block -> Digest, u: iset<Block>)
      requires Ok(hash, u)
      ensures StepClaimsNew(hash, AfterY(hash), Deliver(z, 0))
    {
      Hashes(hash, u);
      ChainNamesOne(y);
    }

    lemma MineW(hash: Block -> Digest, u: iset<Block>)
      requires Ok(hash, u)
      ensures SharedStep(hash, u, AfterZ(hash), Mine(w), Mined(hash, AfterZ(hash), w))
      ensures Mined(hash, AfterZ(hash), w).tail == [y, z, w]
    {
      assert ListedBy([b], AfterZ(hash).pending, [a.name]);
      assert a.name in AfterZ(hash).pending;
      assert [y, z] + [w] == [y, z, w];
    }

    lemma TwiceAndLost(hash: Block -> Digest, u: iset<Block>)
      requires Ok(hash, u)
      ensures !Unique([y, z, w]) && a.name !in ChainNames([y, z, w])
    {
      var d := [y, z, w];
      assert b in d[0].transactions && b in d[2].transactions;
      assert b.name in BlockNames(d[0]) && b.name in BlockNames(d[2]);
    }

    lemma IsARun(hash: Block -> Digest, u: iset<Block>)
      requires Ok(hash, u)
      ensures IsSharedRun(hash, u, States(hash), Events())
    {
      forall i | 0 <= i < 6 ensures SharedStep(hash, u, States(hash)[i], Events()[i], States(hash)[i + 1]) {
        if i <= 1 {
          TakeClaims(hash, u);
        } else if i == 2 {
          MineX(hash, u);
        } else if i == 3 {
          ReceiveY(hash, u);
        } else if i == 4 {
          ReceiveZ(hash, u);
        } else {
          MineW(hash, u);
        }
      }
    }

    lemma AllClaimsNew(hash: Block -> Digest, u: iset<Block>)
      requires Ok(hash, u)
      ensures forall i :: 0 <= i < 6 ==> StepClaimsNew(hash, States(hash)[i], Events()[i])
    {
      forall i | 0 <= i < 6 ensures StepClaimsNew(hash, States(hash)[i], Events()[i]) {
        if i == 3 {
          ReceiveY(hash, u);
        } else if i == 4 {
          ZClaimsNew(hash, u);
        }
      }
    }
  }

  /** With the shared variable names do not stay unique, and claims do not stay: a run of one node in
      which every delivered block claims only new names, each once, ends with the second name reserved
      twice on the official chain and the first, reserved before, free again. With a variable per
      iteration no such run exists (ChainNetwork.RunUniqueIff, Ledgers.RunMonotone). The switch of forks
      takes back a claim that is not its block's last; the mining then starts from an entry that does
      not claim its key. */
  lemma SharedRunBreaksNames(hash: Block -> Digest, u: iset<Block>, scene: Scene)
    requires scene.Ok(hash, u)
    ensures var states, events := scene.States(hash), scene.Events();
            && IsSharedRun(hash, u, states, events)
            && (forall i :: 0 <= i < |events| ==> StepClaimsNew(hash, states[i], events[i]))
            && !Unique(states[6].tail)
            && scene.a.name in Reserved(states[3]) && scene.a.name !in Reserved(states[6])
  {
    scene.IsARun(hash, u);
    scene.AllClaimsNew(hash, u);
    assert scene.States(hash)[6].tail == [scene.y, scene.z, scene.w] && scene.States(hash)[6].pending == map[] by {
      scene.MineW(hash, u);
    }
    scene.TwiceAndLost(hash, u);
    assert scene.a.name in ChainNames([scene.x]) by {
      ChainNamesOne(scene.x);
      assert scene.a in scene.x.transactions;
    }
  }
}
