// The drain of the waiting buffer as the comments of BlockchainManager.go describe it: a buffered
// block leaves the buffer when its parent is known. The code looks up another hash; this module
// shows what the comments' version would achieve. DeliveryOrder has what the code does.

module IntendedDrain {
  import opened Messages
  import opened Ledgers
  import opened DeliveryOrder

  datatype Books = Books(tree: map<Digest, Chain>, waiting: map<Digest, Block>)

  const EMPTY := Books(INITIAL.tree, map[])

  /** A buffered block whose parent is known. */
  predicate Ready(s: Books, h: Digest) {
    h in s.waiting && s.waiting[h].prevHash in s.tree
  }

  /** The block leaves the buffer and is appended to its parent's chain. */
  function Attach(s: Books, h: Digest): Books
    requires Ready(s, h)
  {
    Books(s.tree[h := s.tree[s.waiting[h].prevHash] + [s.waiting[h]]], s.waiting - {h})
  }

  /** Some ready block is attached; which one is left open, as Go's map iteration leaves it. */
  ghost predicate Attaches(s: Books, t: Books) {
    exists h :: Ready(s, h) && t == Attach(s, h)
  }

  ghost predicate NothingReady(s: Books) {
    forall h :: !Ready(s, h)
  }

  /** One ready block after another, in any order, until no buffered block is ready. */
  ghost predicate IsDrain(path: seq<Books>) {
    && path != []
    && (forall i :: 0 <= i < |path| - 1 ==> Attaches(path[i], path[i + 1]))
    && NothingReady(path[|path| - 1])
  }

  ghost predicate Drains(s: Books, t: Books) {
    exists path :: IsDrain(path) && path[0] == s && path[|path| - 1] == t
  }

  /** The block is appended to its known parent. */
  function Append(hash: Block -> Digest, s: Books, b: Block): Books
    requires b.prevHash in s.tree
  {
    s.(tree := s.tree[hash(b) := s.tree[b.prevHash] + [b]])
  }

  /** AddBlock with the intended drain. A mined block takes the same way as an arriving block with a
      known parent: it is appended, and blocks may be waiting for it. */
  ghost predicate Receives(hash: Block -> Digest, s: Books, b: Block, t: Books) {
    if hash(b) in s.tree || !IsGood(hash(b)) then t == s
    else if b.prevHash !in s.tree then t == s.(waiting := s.waiting[hash(b) := b])
    else Drains(Append(hash, s, b), t)
  }

  /** The blocks ds have arrived, or been mined, at a new node in this order. */
  ghost predicate IsReception(hash: Block -> Digest, ds: seq<Block>, books: seq<Books>) {
    && |books| == |ds| + 1
    && books[0] == EMPTY
    && forall i :: 0 <= i < |ds| ==> Receives(hash, books[i], ds[i], books[i + 1])
  }

  // ---------- the invariant ----------

  /** Only linked chains of arrived blocks are known; every good block that has arrived is known or
      waits, and nothing else waits. */
  ghost predicate BooksOk(hash: Block -> Digest, u: iset<Block>, s: Books, ds: seq<Block>) {
    && TreeOk(hash, u, s.tree)
    && (forall h :: h in s.tree ==> Linked(hash, s.tree[h]) && Arrived(s.tree[h], ds))
    && BufferExact(hash, s.tree, s.waiting, ds)
  }

  lemma GrowLinked(hash: Block -> Digest, u: iset<Block>, tree: map<Digest, Chain>, ds: seq<Block>, b: Block)
    requires Ideal(hash, u) && TreeOk(hash, u, tree) && b in u && b in ds && IsGood(hash(b)) && b.prevHash in tree
    requires forall h :: h in tree ==> Linked(hash, tree[h]) && Arrived(tree[h], ds)
    ensures Linked(hash, tree[b.prevHash] + [b]) && Arrived(tree[b.prevHash] + [b], ds)
  {
    var c := tree[b.prevHash] + [b];
    StoredChainHash(hash, u, tree, b.prevHash);
    assert Front(c) == tree[b.prevHash] && Last(c) == b;
    LinkedFront(hash, c);
  }

  lemma AttachOk(hash: Block -> Digest, u: iset<Block>, s: Books, ds: seq<Block>, h: Digest)
    requires Ideal(hash, u) && (forall b :: b in ds ==> b in u) && BooksOk(hash, u, s, ds) && Ready(s, h)
    ensures BooksOk(hash, u, Attach(s, h), ds)
  {
    var b, t := s.waiting[h], Attach(s, h);
    assert ShouldWait(hash, s.tree, ds, b) && hash(b) == h;
    GrownTreeOk(hash, u, s.tree, b);
    GrowLinked(hash, u, s.tree, ds, b);
    forall x | ShouldWait(hash, t.tree, ds, x) ensures hash(x) in t.waiting && t.waiting[hash(x)] == x {
      assert ShouldWait(hash, s.tree, ds, x);
    }
  }

  /** However it goes, a drain keeps the books in order. */
  lemma {:induction false} DrainOk(hash: Block -> Digest, u: iset<Block>, path: seq<Books>, ds: seq<Block>, i: nat)
    requires Ideal(hash, u) && (forall b :: b in ds ==> b in u) && IsDrain(path) && BooksOk(hash, u, path[0], ds)
    requires i < |path|
    ensures BooksOk(hash, u, path[i], ds)
  {
    if i > 0 {
      DrainOk(hash, u, path, ds, i - 1);
      assert Attaches(path[i - 1], path[i - 1 + 1]);
      var h :| Ready(path[i - 1], h) && path[i] == Attach(path[i - 1], h);
      AttachOk(hash, u, path[i - 1], ds, h);
    }
  }

  /** It ends with no waiting block beside its parent. */
  lemma DrainedOk(hash: Block -> Digest, u: iset<Block>, s: Books, t: Books, ds: seq<Block>)
    requires Ideal(hash, u) && (forall b :: b in ds ==> b in u) && BooksOk(hash, u, s, ds) && Drains(s, t)
    ensures BooksOk(hash, u, t, ds) && Closed(t.tree, t.waiting)
  {
    var path :| IsDrain(path) && path[0] == s && path[|path| - 1] == t;
    DrainOk(hash, u, path, ds, |path| - 1);
    forall h | h in t.waiting ensures t.waiting[h].prevHash !in t.tree {
      assert !Ready(t, h);
    }
  }

  /** A drain comes to an end: the buffer shrinks with every block attached. */
  lemma {:induction false} DrainEnds(s: Books) returns (path: seq<Books>)
    ensures IsDrain(path) && path[0] == s
    decreases |s.waiting|
  {
    if h :| Ready(s, h) {
      assert s.waiting.Keys == (s.waiting - {h}).Keys + {h};
      var rest := DrainEnds(Attach(s, h));
      path := [s] + rest;
      forall i | 0 <= i < |path| - 1 ensures Attaches(path[i], path[i + 1]) {
        if i > 0 {
          assert Attaches(rest[i - 1], rest[i - 1 + 1]);
        }
      }
      assert path[|path| - 1] == rest[|rest| - 1];
    } else {
      path := [s];
    }
  }

  lemma ReceiveOk(hash: Block -> Digest, u: iset<Block>, s: Books, ds: seq<Block>, b: Block, t: Books)
    requires Ideal(hash, u) && (forall x :: x in ds ==> x in u) && b in u
    requires BooksOk(hash, u, s, ds) && Closed(s.tree, s.waiting) && Receives(hash, s, b, t)
    ensures BooksOk(hash, u, t, ds + [b]) && Closed(t.tree, t.waiting)
  {
    var es := ds + [b];
    assert b in es && forall x :: x in es <==> x in ds || x == b;
    if hash(b) in s.tree || !IsGood(hash(b)) {
      SeenBefore(hash, u, s, ds, b);
    } else if b.prevHash !in s.tree {
      BufferOne(hash, u, s, ds, b);
    } else {
      AppendOne(hash, u, s, ds, b);
      DrainedOk(hash, u, Append(hash, s, b), t, es);
    }
  }

  lemma SeenBefore(hash: Block -> Digest, u: iset<Block>, s: Books, ds: seq<Block>, b: Block)
    requires BooksOk(hash, u, s, ds) && (hash(b) in s.tree || !IsGood(hash(b)))
    ensures BooksOk(hash, u, s, ds + [b])
  {
    forall x | ShouldWait(hash, s.tree, ds + [b], x) ensures hash(x) in s.waiting && s.waiting[hash(x)] == x {
      assert ShouldWait(hash, s.tree, ds, x);
    }
    forall h | h in s.waiting ensures ShouldWait(hash, s.tree, ds + [b], s.waiting[h]) {
      assert ShouldWait(hash, s.tree, ds, s.waiting[h]);
    }
  }

  lemma BufferOne(hash: Block -> Digest, u: iset<Block>, s: Books, ds: seq<Block>, b: Block)
    requires Ideal(hash, u) && (forall x :: x in ds ==> x in u) && b in u
    requires BooksOk(hash, u, s, ds) && Closed(s.tree, s.waiting)
    requires hash(b) !in s.tree && IsGood(hash(b)) && b.prevHash !in s.tree
    ensures var t := s.(waiting := s.waiting[hash(b) := b]);
            BooksOk(hash, u, t, ds + [b]) && Closed(t.tree, t.waiting)
  {
    var t := s.(waiting := s.waiting[hash(b) := b]);
    forall x | ShouldWait(hash, t.tree, ds + [b], x) ensures hash(x) in t.waiting && t.waiting[hash(x)] == x {
      assert x == b || ShouldWait(hash, s.tree, ds, x);
    }
    forall h | h in t.waiting ensures hash(t.waiting[h]) == h && ShouldWait(hash, t.tree, ds + [b], t.waiting[h]) {
      assert h != hash(b) ==> ShouldWait(hash, s.tree, ds, s.waiting[h]);
    }
  }

  lemma AppendOne(hash: Block -> Digest, u: iset<Block>, s: Books, ds: seq<Block>, b: Block)
    requires Ideal(hash, u) && (forall x :: x in ds ==> x in u) && b in u
    requires BooksOk(hash, u, s, ds) && Closed(s.tree, s.waiting)
    requires hash(b) !in s.tree && IsGood(hash(b)) && b.prevHash in s.tree
    ensures BooksOk(hash, u, Append(hash, s, b), ds + [b])
  {
    var t, es := Append(hash, s, b), ds + [b];
    GrownTreeOk(hash, u, s.tree, b);
    GrowLinked(hash, u, s.tree, es, b);
    forall x | ShouldWait(hash, t.tree, es, x) ensures hash(x) in t.waiting && t.waiting[hash(x)] == x {
      assert ShouldWait(hash, s.tree, ds, x);
    }
    forall h | h in t.waiting ensures hash(t.waiting[h]) == h && ShouldWait(hash, t.tree, es, t.waiting[h]) {
      assert ShouldWait(hash, s.tree, ds, s.waiting[h]);
    }
  }

  lemma {:induction false} ReceptionOk(hash: Block -> Digest, u: iset<Block>, ds: seq<Block>, books: seq<Books>, i: nat)
    requires Ideal(hash, u) && (forall b :: b in ds ==> b in u) && IsReception(hash, ds, books) && i <= |ds|
    ensures BooksOk(hash, u, books[i], ds[..i]) && Closed(books[i].tree, books[i].waiting)
  {
    if i > 0 {
      ReceptionOk(hash, u, ds, books, i - 1);
      assert Receives(hash, books[i - 1], ds[i - 1], books[i - 1 + 1]);
      ReceiveOk(hash, u, books[i - 1], ds[..i - 1], ds[i - 1], books[i]);
      assert ds[..i] == ds[..i - 1] + [ds[i - 1]];
    }
  }

  lemma ReceivedAll(hash: Block -> Digest, u: iset<Block>, ds: seq<Block>, books: seq<Books>)
    requires Ideal(hash, u) && (forall b :: b in ds ==> b in u) && IsReception(hash, ds, books)
    ensures BooksOk(hash, u, books[|ds|], ds) && Closed(books[|ds|].tree, books[|ds|].waiting)
  {
    ReceptionOk(hash, u, ds, books, |ds|);
    assert ds[..|ds|] == ds;
  }

  // ---------- what it would achieve ----------

  /** The intended version handles every sequence of arrivals. */
  lemma {:induction false} ReceptionExists(hash: Block -> Digest, ds: seq<Block>) returns (books: seq<Books>)
    ensures IsReception(hash, ds, books)
    decreases |ds|
  {
    books := [EMPTY];
    if ds != [] {
      var before := ReceptionExists(hash, Front(ds));
      var s, b := before[|ds| - 1], Last(ds);
      var t := s;
      if hash(b) !in s.tree && IsGood(hash(b)) {
        if b.prevHash !in s.tree {
          t := s.(waiting := s.waiting[hash(b) := b]);
        } else {
          var path := DrainEnds(Append(hash, s, b));
          t := path[|path| - 1];
        }
      }
      assert Receives(hash, s, b, t);
      books := before + [t];
      forall i | 0 <= i < |ds| ensures Receives(hash, books[i], ds[i], books[i + 1]) {
        if i < |ds| - 1 {
          assert Receives(hash, before[i], Front(ds)[i], before[i + 1]);
        }
      }
    }
  }

  /** With the intended drain no block waits beside its parent, and the known chains are exactly the
      linked chains of good blocks that have arrived, at every moment, whatever the order of arrival,
      the repetitions and the order in which the drains go through the buffer. */
  lemma KnownIffArrived(hash: Block -> Digest, u: iset<Block>, ds: seq<Block>, books: seq<Books>, i: nat, c: Chain)
    requires Ideal(hash, u) && (forall b :: b in ds ==> b in u) && IsReception(hash, ds, books) && i <= |ds|
    ensures Closed(books[i].tree, books[i].waiting)
    ensures Known(hash, books[i].tree, c) <==> Linked(hash, c) && Arrived(c, ds[..i])
  {
    ReceptionOk(hash, u, ds, books, i);
    if Linked(hash, c) && Arrived(c, ds[..i]) {
      ClosedKnows(hash, u, books[i].tree, books[i].waiting, ds[..i], c);
    }
  }

  lemma KnownAfterAll(hash: Block -> Digest, u: iset<Block>, ds: seq<Block>, books: seq<Books>, c: Chain)
    requires Ideal(hash, u) && (forall b :: b in ds ==> b in u) && IsReception(hash, ds, books)
    ensures Known(hash, books[|ds|].tree, c) <==> Linked(hash, c) && Arrived(c, ds)
  {
    KnownIffArrived(hash, u, ds, books, |ds|, c);
    assert ds[..|ds|] == ds;
  }

  /** The intended drain makes tree and buffer depend on the set of blocks that have arrived only. */
  lemma AnyOrder(
    hash: Block -> Digest, u: iset<Block>, ds: seq<Block>, books: seq<Books>, es: seq<Block>, others: seq<Books>)
    requires Ideal(hash, u) && (forall b :: b in ds ==> b in u) && (forall b :: b in ds <==> b in es)
    requires IsReception(hash, ds, books) && IsReception(hash, es, others)
    ensures books[|ds|] == others[|es|]
  {
    var s, t := books[|ds|], others[|es|];
    ReceivedAll(hash, u, ds, books);
    ReceivedAll(hash, u, es, others);
    forall c ensures Known(hash, s.tree, c) <==> Known(hash, t.tree, c) {
      KnownAfterAll(hash, u, ds, books, c);
      KnownAfterAll(hash, u, es, others, c);
    }
    KnownDetermines(hash, u, s.tree, t.tree);
    KnownDetermines(hash, u, t.tree, s.tree);
    SameBuffer(hash, s.tree, s.waiting, ds, t.waiting, es);
    SameBuffer(hash, s.tree, t.waiting, es, s.waiting, ds);
  }

  /** An exact buffer is determined by the tree and the blocks that have arrived. */
  lemma SameBuffer(
    hash: Block -> Digest, tree: map<Digest, Chain>,
    v: map<Digest, Block>, ds: seq<Block>, w: map<Digest, Block>, es: seq<Block>)
    requires (forall b :: b in ds <==> b in es) && BufferExact(hash, tree, v, ds) && BufferExact(hash, tree, w, es)
    ensures forall h :: h in v ==> h in w && w[h] == v[h]
  {
    forall h | h in v ensures h in w && w[h] == v[h] {
      assert ShouldWait(hash, tree, es, v[h]);
    }
  }

  /** On every run of the code, mining included: it knows the same blocks as the intended version given
      the same blocks exactly when its tree is complete. */
  lemma CodeAgreesIff(
    hash: Block -> Digest, u: iset<Block>, states: seq<Ledger>, events: seq<Event>, i: nat, books: seq<Books>)
    requires Ideal(hash, u) && IsRun(hash, u, states, events) && i < |states|
    requires IsReception(hash, Arrivals(events[..i]), books)
    ensures var ds := Arrivals(events[..i]);
            states[i].tree == books[|ds|].tree <==> Complete(hash, states[i].tree, ds)
  {
    var ds := Arrivals(events[..i]);
    RunTree(hash, u, states, events, i);
    TreesAgreeIff(hash, u, ds, books);
  }

  lemma TreesAgreeIff(hash: Block -> Digest, u: iset<Block>, ds: seq<Block>, books: seq<Books>)
    requires Ideal(hash, u) && (forall b :: b in ds ==> b in u) && IsReception(hash, ds, books)
    ensures TreeAfter(hash, ds) == books[|ds|].tree <==> Complete(hash, TreeAfter(hash, ds), ds)
  {
    var s, t := TreeAfter(hash, ds), books[|ds|].tree;
    TreeAfterOk(hash, u, ds);
    ReceivedAll(hash, u, ds, books);
    forall c ensures (Known(hash, s, c) ==> Known(hash, t, c)) && (Known(hash, t, c) <==> Linked(hash, c) && Arrived(c, ds)) {
      KnownAfterAll(hash, u, ds, books, c);
      KnownIffDeliveredInOrder(hash, u, ds, c);
      if InOrder(c, ds) {
        InOrderArrived(c, ds);
      }
    }
    if Complete(hash, s, ds) {
      KnownDetermines(hash, u, s, t);
      KnownDetermines(hash, u, t, s);
    }
  }
}
