// TransactionsSet.go: the filename-keyed set of transactions.

module TransactionsSets {
  import opened Wrappers
  import opened Messages

  function Names(txs: seq<TxPublish>): set<Name> {
    set t | t in txs :: t.name
  }

  /** Every transaction sits under the name it claims. */
  ghost predicate WellKeyed(m: map<Name, TxPublish>) {
    forall n :: n in m ==> m[n].name == n
  }

  /** The set built from a slice of transactions: the first claim of a name wins. */
  function TxMap(txs: seq<TxPublish>): (m: map<Name, TxPublish>)
    ensures m.Keys == Names(txs)
    ensures forall n :: n in m ==> m[n] in txs && m[n].name == n
  {
    if txs == [] then map[] else
    var last := txs[|txs| - 1];
    var before := TxMap(txs[..|txs| - 1]);
    assert txs == txs[..|txs| - 1] + [last];
    if last.name in before then before else before[last.name := last]
  }

  /** r holds the value of every key of m once, in the order ks of the keys. */
  ghost predicate ListedBy(r: seq<TxPublish>, m: map<Name, TxPublish>, ks: seq<Name>) {
    && |ks| == |r|
    && (forall i, j :: 0 <= i < j < |ks| ==> ks[i] != ks[j])
    && (forall n :: n in ks <==> n in m)
    && forall i :: 0 <= i < |ks| ==> r[i] == m[ks[i]]
  }

  /** r is a copy of the map's values in some iteration order. */
  ghost predicate Listing(r: seq<TxPublish>, m: map<Name, TxPublish>) {
    exists ks :: ListedBy(r, m, ks)
  }

  class TransactionsSet {
    var s: map<Name, TxPublish>

    constructor ()
      ensures s == map[]
    {
      s := map[];
    }

    predicate ContainsFilename(name: Name)
      reads this
    {
      name in s
    }

    predicate Contains(tx: TxPublish)
      reads this
    {
      ContainsFilename(tx.name)
    }

    predicate IsEmpty()
      reads this
    {
      |s| == 0
    }

    method Add(tx: TxPublish) returns (added: bool)
      modifies this
      ensures added <==> tx.name !in old(s)
      ensures s == if added then old(s)[tx.name := tx] else old(s)
    {
      if tx.name in s {
        return false;
      }
      s := s[tx.name := tx];
      return true;
    }

    /** Other's transactions overwrite those already there under the same name. */
    method Union(other: map<Name, TxPublish>)
      modifies this
      ensures s == old(s) + other
    {
      var todo := other.Keys;
      while todo != {}
        invariant todo <= other.Keys
        invariant s == old(s) + (other - todo)
      {
        var name :| name in todo;
        s := s[name := other[name]];
        todo := todo - {name};
      }
    }

    method Subtract(other: map<Name, TxPublish>)
      modifies this
      ensures s == old(s) - other.Keys
    {
      var todo := other.Keys;
      while todo != {}
        invariant todo <= other.Keys
        invariant s == old(s) - (other.Keys - todo)
      {
        var name :| name in todo;
        if name in s {
          s := s - {name};
        }
        todo := todo - {name};
      }
    }

    method GetSliceCopy() returns (ret: seq<TxPublish>)
      ensures Listing(ret, s)
    {
      ret := [];
      ghost var ks: seq<Name> := [];
      var todo := s.Keys;
      while todo != {}
        invariant todo <= s.Keys
        invariant |ks| == |ret|
        invariant forall i, j :: 0 <= i < j < |ks| ==> ks[i] != ks[j]
        invariant forall n :: n in ks <==> n in s && n !in todo
        invariant forall i :: 0 <= i < |ks| ==> ret[i] == s[ks[i]]
      {
        var name :| name in todo;
        ret := ret + [s[name]];
        ks := ks + [name];
        todo := todo - {name};
      }
      assert ListedBy(ret, s, ks);
    }

    method Clear()
      modifies this
      ensures s == map[]
    {
      s := map[];
    }
  }

  /** InitFromSlice with a loop variable of its own per iteration: the set the code means to build. */
  method InitFromSlice(txs: seq<TxPublish>) returns (ts: TransactionsSet)
    ensures fresh(ts) && ts.s == TxMap(txs)
  {
    ts := new TransactionsSet();
    for i := 0 to |txs|
      invariant fresh(ts)
      invariant ts.s == TxMap(txs[..i])
    {
      assert txs[..i + 1][..i] == txs[..i];
      var _ := ts.Add(txs[i]);
    }
    assert txs[..|txs|] == txs;
  }

  /** InitFromSlice with one loop variable shared by all iterations (Go before 1.22): every entry
      points at that variable, which ends as the last transaction of the slice. */
  function TxMapShared(txs: seq<TxPublish>): (m: map<Name, TxPublish>)
    ensures m.Keys == Names(txs)
  {
    map n | n in Names(txs) :: txs[|txs| - 1]
  }

  // ---------- round trips ----------

  lemma ListingNames(r: seq<TxPublish>, m: map<Name, TxPublish>)
    requires Listing(r, m) && WellKeyed(m)
    ensures Names(r) == m.Keys
  {
    var ks :| ListedBy(r, m, ks);
    forall n | n in m.Keys ensures n in Names(r) {
      assert n in ks;
      var i :| 0 <= i < |ks| && ks[i] == n;
      assert r[i] in r;
    }
  }

  lemma ListedUnderItsName(r: seq<TxPublish>, m: map<Name, TxPublish>, x: TxPublish)
    requires Listing(r, m) && WellKeyed(m) && x in r
    ensures x.name in m && m[x.name] == x
  {
    var ks :| ListedBy(r, m, ks);
    var i :| 0 <= i < |r| && r[i] == x;
    assert ks[i] in ks;
  }

  /** Copying a set into a slice and building a set from the slice, which is what mining does,
      gives the set back exactly when every transaction sits under its own name. */
  lemma RoundTripIffWellKeyed(r: seq<TxPublish>, m: map<Name, TxPublish>)
    requires Listing(r, m)
    ensures TxMap(r) == m <==> WellKeyed(m)
  {
    if WellKeyed(m) {
      ListingNames(r, m);
      forall n | n in m ensures TxMap(r)[n] == m[n] {
        ListedUnderItsName(r, m, TxMap(r)[n]);
      }
    }
  }

  /** With the shared loop variable the set is well keyed only when the slice claims one name. */
  lemma SharedWellKeyedIffOneName(txs: seq<TxPublish>)
    ensures WellKeyed(TxMapShared(txs)) <==> forall s, t :: s in txs && t in txs ==> s.name == t.name
  {
    if txs != [] {
      var last := txs[|txs| - 1];
      if WellKeyed(TxMapShared(txs)) {
        forall t | t in txs ensures t.name == last.name {
          assert t.name in Names(txs);
        }
      }
    }
  }

  /** A block rolled back and mined again with the shared variable: of all its claims only the
      name of its last transaction is still made, once for every name it claimed before. */
  lemma SharedVariableKeepsOneName(txs: seq<TxPublish>, r: seq<TxPublish>)
    requires txs != [] && Listing(r, TxMapShared(txs))
    ensures Names(r) == {txs[|txs| - 1].name}
    ensures forall x :: x in r ==> x == txs[|txs| - 1]
  {
    var m := TxMapShared(txs);
    var ks :| ListedBy(r, m, ks);
    var last := txs[|txs| - 1];
    assert last in txs;
    assert last.name in m;
    assert last.name in ks;
    assert r[0] in r;
    forall x | x in r ensures x == last {
      var i :| 0 <= i < |r| && r[i] == x;
      assert ks[i] in ks;
    }
  }

  /** Worse, when the new branch holds the last claim already: what is left of the rolled-back block
      is mined as a second claim of that very name. */
  lemma SharedVariableReclaims(a: TxPublish, b: TxPublish, r: seq<TxPublish>)
    requires a.name != b.name
    requires Listing(r, TxMapShared([a, b]) - {b.name})
    ensures Names(r) == {b.name}
  {
    var m := TxMapShared([a, b]) - {b.name};
    var ks :| ListedBy(r, m, ks);
    assert a in [a, b];
    assert a.name in m;
    assert a.name in ks;
    assert r[0] in r;
    forall x | x in r ensures x == b {
      var i :| 0 <= i < |r| && r[i] == x;
      assert ks[i] in ks;
    }
  }
}
