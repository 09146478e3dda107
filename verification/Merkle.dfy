// MerkleNode.go and MerkleSharedFile.go: the tree built level by level over the hashes of a file's chunks.

module Merkle {
  import opened Wrappers
  import opened Messages
  import opened SharedFiles

  const CHILDREN_NUMBER := 256  // FileChunkSize / 32

  datatype MerkleNode = MerkleNode(height: nat, hashValue: Digest, children: seq<MerkleNode>)

  function Leaf(h: Digest): MerkleNode {
    MerkleNode(0, h, [])
  }

  function HashesOf(nodes: seq<MerkleNode>): (hashes: seq<Digest>)
    ensures |hashes| == |nodes|
  {
    seq(|nodes|, i requires 0 <= i < |nodes| => nodes[i].hashValue)
  }

  /** What an inner node stores: its children's hashes one after the other. */
  function InnerData(children: seq<MerkleNode>): Bytes {
    Flatten(DigestBytes(HashesOf(children)))
  }

  function Inner(sha: Bytes -> Digest, children: seq<MerkleNode>): MerkleNode
    requires children != []
  {
    MerkleNode(children[0].height + 1, sha(InnerData(children)), children)
  }

  ghost predicate SameHeight(nodes: seq<MerkleNode>) {
    forall i :: 0 <= i < |nodes| ==> nodes[i].height == nodes[0].height
  }

  /** Nodes of one height whose hashes have the size of hashes. */
  ghost predicate Uniform(nodes: seq<MerkleNode>) {
    SameHeight(nodes) && forall i :: 0 <= i < |nodes| ==> nodes[i].hashValue.Sized()
  }

  /** constructInnerMerkleNode: nil for no children, children of different heights or too many of
      them; otherwise the node, whose data goes to the store under its hash. */
  method ConstructInner(sha: Bytes -> Digest, children: seq<MerkleNode>) returns (node: Option<MerkleNode>, data: Bytes)
    ensures node == None <==> children == [] || !SameHeight(children) || |InnerData(children)| > FILE_CHUNK_SIZE
    ensures node != None ==> node.value == Inner(sha, children) && data == InnerData(children)
  {
    data := [];
    if children == [] {
      return None, data;
    }
    var height := children[0].height;
    for i := 0 to |children|
      invariant data == InnerData(children[..i])
      invariant forall j :: 0 <= j < i ==> children[j].height == height
    {
      assert DigestBytes(HashesOf(children[..i + 1]))[..i] == DigestBytes(HashesOf(children[..i]));
      data := data + children[i].hashValue.bytes;
      if children[i].height != height {
        return None, data;
      }
    }
    assert children[..|children|] == children;
    if |data| > FILE_CHUNK_SIZE {
      return None, data;
    }
    return Some(MerkleNode(height + 1, sha(data), children)), data;
  }

  // ---------- levels ----------

  function GroupCount(n: nat): nat {
    (n + CHILDREN_NUMBER - 1) / CHILDREN_NUMBER
  }

  /** The j-th group of children of a level. */
  function GroupAt(level: seq<MerkleNode>, j: nat): (g: seq<MerkleNode>)
    requires j < GroupCount(|level|)
    ensures g != [] && |g| <= CHILDREN_NUMBER
  {
    level[j * CHILDREN_NUMBER .. Min((j + 1) * CHILDREN_NUMBER, |level|)]
  }

  function NextLevel(sha: Bytes -> Digest, level: seq<MerkleNode>): (next: seq<MerkleNode>)
    ensures |next| == GroupCount(|level|)
  {
    seq(GroupCount(|level|), j requires 0 <= j < GroupCount(|level|) => Inner(sha, GroupAt(level, j)))
  }

  lemma GroupArithmetic(i: nat, n: nat)
    requires i < n
    ensures i / CHILDREN_NUMBER < GroupCount(n)
    ensures i / CHILDREN_NUMBER * CHILDREN_NUMBER == i - i % CHILDREN_NUMBER
    ensures if (i + 1) % CHILDREN_NUMBER == 0 || i + 1 == n
            then Min((i / CHILDREN_NUMBER + 1) * CHILDREN_NUMBER, n) == i + 1
            else (i + 1) / CHILDREN_NUMBER == i / CHILDREN_NUMBER && (i + 1) % CHILDREN_NUMBER == i % CHILDREN_NUMBER + 1
    ensures (i + 1) % CHILDREN_NUMBER == 0 ==> (i + 1) / CHILDREN_NUMBER == i / CHILDREN_NUMBER + 1
    ensures i + 1 == n ==> i / CHILDREN_NUMBER + 1 == GroupCount(n)
  {
  }

  /** The stored chunks: every entry is filed under its hash. */
  ghost predicate StoreOk(sha: Bytes -> Digest, store: map<Digest, Bytes>) {
    forall h :: h in store ==> sha(store[h]) == h
  }

  /** The node set is keyed by hash. */
  ghost predicate NodeSetOk(nodeset: map<Digest, MerkleNode>) {
    forall h :: h in nodeset ==> nodeset[h].hashValue == h
  }

  function HashSet(nodes: seq<MerkleNode>): set<Digest> {
    set n | n in nodes :: n.hashValue
  }

  lemma HashSetAppend(nodes: seq<MerkleNode>, n: MerkleNode)
    ensures HashSet(nodes + [n]) == HashSet(nodes) + {n.hashValue}
  {
    assert n in nodes + [n];
    forall x | x in nodes ensures x in nodes + [n] {
    }
  }

  /** The keys are the old ones and the hashes of the new nodes. */
  ghost predicate Gained<V>(before: map<Digest, V>, after: map<Digest, V>, nodes: seq<MerkleNode>) {
    after.Keys == before.Keys + HashSet(nodes)
  }

  lemma GainOne<V>(before: map<Digest, V>, after: map<Digest, V>, nodes: seq<MerkleNode>, n: MerkleNode, v: V)
    requires Gained(before, after, nodes)
    ensures Gained(before, after[n.hashValue := v], nodes + [n])
  {
    HashSetAppend(nodes, n);
  }

  /** The nodes before position i that have no parent yet. */
  ghost function Collected(level: seq<MerkleNode>, i: nat): seq<MerkleNode>
    requires i <= |level|
  {
    level[i - i % CHILDREN_NUMBER .. i]
  }

  /** Adding a node to the children collected so far; a full group, or the last one, is a group. */
  lemma GroupStep(level: seq<MerkleNode>, i: nat, curChildren: seq<MerkleNode>)
    requires i < |level| && curChildren == Collected(level, i) && Uniform(level)
    ensures var full := (i + 1) % CHILDREN_NUMBER == 0 || i + 1 == |level|;
            && i / CHILDREN_NUMBER < GroupCount(|level|)
            && (full ==> curChildren + [level[i]] == GroupAt(level, i / CHILDREN_NUMBER) && Uniform(curChildren + [level[i]]))
            && (i + 1 < |level| ==> Collected(level, i + 1) == if full then [] else curChildren + [level[i]])
            && (if i + 1 < |level| then (i + 1) / CHILDREN_NUMBER else GroupCount(|level|))
               == i / CHILDREN_NUMBER + if full then 1 else 0
  {
    GroupArithmetic(i, |level|);
    assert curChildren + [level[i]] == level[i - i % CHILDREN_NUMBER .. i + 1];
  }

  lemma TakeOneMore<T>(s: seq<T>, m: nat)
    requires m < |s|
    ensures s[..m + 1] == s[..m] + [s[m]]
  {
  }

  /** The parent of a collected group goes to the next level, the node set and the store. */
  method AddParent(sha: Bytes -> Digest, children: seq<MerkleNode>, nodeset0: map<Digest, MerkleNode>, store0: map<Digest, Bytes>)
    returns (parent: MerkleNode, nodeset: map<Digest, MerkleNode>, store: map<Digest, Bytes>)
    requires 0 < |children| <= CHILDREN_NUMBER && Uniform(children)
    requires StoreOk(sha, store0) && NodeSetOk(nodeset0)
    ensures parent == Inner(sha, children)
    ensures StoreOk(sha, store) && store == store0[parent.hashValue := InnerData(children)]
    ensures NodeSetOk(nodeset) && nodeset == nodeset0[parent.hashValue := parent]
  {
    GroupFits(children);
    var node, data := ConstructInner(sha, children);
    parent := node.value;
    store := store0[parent.hashValue := data];
    nodeset := nodeset0[parent.hashValue := parent];
  }

  /** The inner loop of ShareMerkleFile: one level from the level below. The error paths of the node
      constructor are never taken. */
  method BuildLevel(sha: Bytes -> Digest, level: seq<MerkleNode>, nodeset0: map<Digest, MerkleNode>, store0: map<Digest, Bytes>)
    returns (next: seq<MerkleNode>, nodeset: map<Digest, MerkleNode>, store: map<Digest, Bytes>)
    requires Uniform(level)
    requires StoreOk(sha, store0) && NodeSetOk(nodeset0)
    ensures next == NextLevel(sha, level)
    ensures StoreOk(sha, store) && NodeSetOk(nodeset)
    ensures Gained(store0, store, next) && Gained(nodeset0, nodeset, next)
  {
    next, nodeset, store := [], nodeset0, store0;
    var curChildren: seq<MerkleNode> := [];
    for i := 0 to |level|
      invariant |next| == if i < |level| then i / CHILDREN_NUMBER else GroupCount(i)
      invariant |next| <= GroupCount(|level|) && next == NextLevel(sha, level)[..|next|]
      invariant i < |level| ==> curChildren == Collected(level, i)
      invariant StoreOk(sha, store) && NodeSetOk(nodeset)
      invariant Gained(store0, store, next) && Gained(nodeset0, nodeset, next)
    {
      GroupStep(level, i, curChildren);
      curChildren := curChildren + [level[i]];
      if (i + 1) % CHILDREN_NUMBER == 0 || i + 1 == |level| {
        var parent;
        ghost var stored, listed := store, nodeset;
        parent, nodeset, store := AddParent(sha, curChildren, nodeset, store);
        TakeOneMore(NextLevel(sha, level), |next|);
        GainOne(store0, stored, next, parent, InnerData(curChildren));
        GainOne(nodeset0, listed, next, parent, parent);
        next := next + [parent];
        curChildren := [];
      }
    }
  }

  lemma GroupFits(children: seq<MerkleNode>)
    requires |children| <= CHILDREN_NUMBER && Uniform(children)
    ensures |InnerData(children)| <= FILE_CHUNK_SIZE
  {
    FlattenSized(HashesOf(children));
  }

  /** A full node's data fills one chunk: every group of a level but the last stores exactly as many
      bytes as a chunk has, the last one at least one hash. */
  lemma GroupsFillChunks(level: seq<MerkleNode>, j: nat)
    requires Uniform(level) && j < GroupCount(|level|)
    ensures j + 1 < GroupCount(|level|) ==> |InnerData(GroupAt(level, j))| == FILE_CHUNK_SIZE
    ensures HASH_SIZE <= |InnerData(GroupAt(level, j))| <= FILE_CHUNK_SIZE
  {
    var g := GroupAt(level, j);
    assert forall i :: 0 <= i < |g| ==> g[i] == level[j * CHILDREN_NUMBER + i];
    FlattenSized(HashesOf(g));
  }

  // ---------- what the tree means ----------

  /** All leaves at height 0, children one lower than their parent and at most CHILDREN_NUMBER of
      them, every hash that of the stored data. */
  ghost predicate WellFormed(sha: Bytes -> Digest, node: MerkleNode) {
    && node.hashValue.Sized()
    && (node.height == 0 <==> node.children == [])
    && |node.children| <= CHILDREN_NUMBER
    && (node.children != [] ==> node.hashValue == sha(InnerData(node.children)))
    && forall c :: c in node.children ==> c.height + 1 == node.height && WellFormed(sha, c)
  }

  ghost predicate LevelOk(sha: Bytes -> Digest, level: seq<MerkleNode>, height: nat) {
    forall n :: n in level ==> n.height == height && WellFormed(sha, n)
  }

  /** The leaf hashes under a node, from left to right. */
  function Leaves(node: MerkleNode): seq<Digest>
    decreases node, 1
  {
    if node.children == [] then [node.hashValue] else AllLeaves(node.children)
  }

  function AllLeaves(nodes: seq<MerkleNode>): seq<Digest>
    decreases nodes, 0
  {
    if nodes == [] then [] else Leaves(nodes[0]) + AllLeaves(nodes[1..])
  }

  lemma {:induction false} AllLeavesAppend(a: seq<MerkleNode>, b: seq<MerkleNode>)
    ensures AllLeaves(a + b) == AllLeaves(a) + AllLeaves(b)
    decreases |a|
  {
    if a == [] {
      assert a + b == b;
    } else {
      assert (a + b)[1..] == a[1..] + b;
      AllLeavesAppend(a[1..], b);
    }
  }

  lemma {:induction false} AllLeavesOfLeaves(hashes: seq<Digest>, nodes: seq<MerkleNode>)
    requires |nodes| == |hashes| && forall i :: 0 <= i < |nodes| ==> nodes[i] == Leaf(hashes[i])
    ensures AllLeaves(nodes) == hashes
    decreases |hashes|
  {
    if hashes != [] {
      AllLeavesOfLeaves(hashes[1..], nodes[1..]);
      assert hashes == [hashes[0]] + hashes[1..];
    }
  }

  lemma {:induction false} NextLevelLeavesPrefix(sha: Bytes -> Digest, level: seq<MerkleNode>, m: nat)
    requires m <= GroupCount(|level|)
    ensures AllLeaves(NextLevel(sha, level)[..m]) == AllLeaves(level[..Min(m * CHILDREN_NUMBER, |level|)])
  {
    if m > 0 {
      NextLevelLeavesPrefix(sha, level, m - 1);
      var next, g := NextLevel(sha, level), GroupAt(level, m - 1);
      assert next[..m] == next[..m - 1] + [next[m - 1]];
      AllLeavesAppend(next[..m - 1], [next[m - 1]]);
      assert AllLeaves([next[m - 1]]) == Leaves(next[m - 1]) + AllLeaves([]);
      assert level[..Min(m * CHILDREN_NUMBER, |level|)] == level[..(m - 1) * CHILDREN_NUMBER] + g;
      AllLeavesAppend(level[..(m - 1) * CHILDREN_NUMBER], g);
    }
  }

  lemma InnerOk(sha: Bytes -> Digest, g: seq<MerkleNode>, height: nat)
    requires (forall d :: sha(d).Sized()) && LevelOk(sha, g, height) && 0 < |g| <= CHILDREN_NUMBER
    ensures Inner(sha, g).height == height + 1 && WellFormed(sha, Inner(sha, g))
  {
    assert g[0] in g;
  }

  /** Going up a level keeps heights uniform and nodes well formed. */
  lemma NextLevelOk(sha: Bytes -> Digest, level: seq<MerkleNode>, height: nat)
    requires (forall d :: sha(d).Sized()) && LevelOk(sha, level, height)
    ensures LevelOk(sha, NextLevel(sha, level), height + 1)
  {
    var next := NextLevel(sha, level);
    forall n | n in next ensures n.height == height + 1 && WellFormed(sha, n) {
      var j :| 0 <= j < |next| && next[j] == n;
      InnerOk(sha, GroupAt(level, j), height);
    }
  }

  /** Going up a level keeps the leaves in order. */
  lemma NextLevelLeaves(sha: Bytes -> Digest, level: seq<MerkleNode>)
    ensures AllLeaves(NextLevel(sha, level)) == AllLeaves(level)
  {
    var next := NextLevel(sha, level);
    NextLevelLeavesPrefix(sha, level, |next|);
    assert next[..|next|] == next && level[..|level|] == level;
  }

  // ---------- the height ----------

  function Pow(k: nat): nat {
    if k == 0 then 1 else CHILDREN_NUMBER * Pow(k - 1)
  }

  /** The number of levels above the leaves. */
  function Levels(n: nat): nat
    requires n > 0
  {
    if n == 1 then 0 else 1 + Levels(GroupCount(n))
  }

  /** The height is the least k such that a tree of height k has room for n leaves. */
  lemma {:induction false} LevelsIsLeast(n: nat, k: nat)
    requires n > 0
    ensures Levels(n) <= k <==> n <= Pow(k)
    decreases n
  {
    if n > 1 && k > 0 {
      LevelsIsLeast(GroupCount(n), k - 1);
      assert GroupCount(n) <= Pow(k - 1) <==> n <= CHILDREN_NUMBER * Pow(k - 1);
    } else if n == 1 {
      PowPositive(k);
    }
  }

  lemma {:induction false} PowPositive(k: nat)
    ensures Pow(k) >= 1
  {
    if k > 0 {
      PowPositive(k - 1);
    }
  }

  // ---------- building the tree ----------

  /** The hash of every node of the tree is one of the keys. */
  ghost predicate AllIn(keys: set<Digest>, node: MerkleNode) {
    node.hashValue in keys && forall c :: c in node.children ==> AllIn(keys, c)
  }

  lemma {:induction false} AllInGrows(keys: set<Digest>, more: set<Digest>, node: MerkleNode)
    requires AllIn(keys, node) && keys <= more
    ensures AllIn(more, node)
    decreases node
  {
    forall c | c in node.children ensures AllIn(more, c) {
      AllInGrows(keys, more, c);
    }
  }

  ghost predicate EachIn(keys: set<Digest>, level: seq<MerkleNode>) {
    forall n :: n in level ==> AllIn(keys, n)
  }

  /** A level on the way up: its nodes are good trees over all the leaves, and the levels still to
      come add up to the final height. */
  ghost predicate LevelInv(sha: Bytes -> Digest, leaves: seq<Digest>, level: seq<MerkleNode>, height: nat) {
    && LevelOk(sha, level, height) && Uniform(level) && AllLeaves(level) == leaves
    && (level == [] <==> leaves == [])
    && (leaves != [] ==> height + Levels(|level|) == Levels(|leaves|))
  }

  lemma LevelUp(sha: Bytes -> Digest, leaves: seq<Digest>, level: seq<MerkleNode>, height: nat)
    requires (forall d :: sha(d).Sized()) && LevelInv(sha, leaves, level, height) && |level| > 1
    ensures LevelInv(sha, leaves, NextLevel(sha, level), height + 1)
    ensures |NextLevel(sha, level)| < |level|
  {
    NextLevelOk(sha, level, height);
    NextLevelLeaves(sha, level);
    var next := NextLevel(sha, level);
    forall i | 0 <= i < |next| ensures next[i].height == height + 1 && next[i].hashValue.Sized() {
      assert next[i] in next;
    }
  }

  /** The lowest level: a leaf for every chunk hash. */
  method LeafLevel(sha: Bytes -> Digest, leaves: seq<Digest>) returns (level: seq<MerkleNode>, nodeset: map<Digest, MerkleNode>)
    requires forall h :: h in leaves ==> h.Sized()
    ensures |level| == |leaves| && LevelInv(sha, leaves, level, 0)
    ensures NodeSetOk(nodeset) && EachIn(nodeset.Keys, level)
    ensures forall n :: n in level ==> n.children == [] && n.hashValue in leaves
  {
    level, nodeset := [], map[];
    for i := 0 to |leaves|
      invariant |level| == i && forall j :: 0 <= j < i ==> level[j] == Leaf(leaves[j])
      invariant NodeSetOk(nodeset) && nodeset.Keys == HashSet(level)
    {
      HashSetAppend(level, Leaf(leaves[i]));
      level := level + [Leaf(leaves[i])];
      nodeset := nodeset[leaves[i] := Leaf(leaves[i])];
    }
    AllLeavesOfLeaves(leaves, level);
  }

  /** ShareMerkleFile from the hashes of the leaves on; store0 holds the leaf chunks. Only an empty
      file is refused. */
  method BuildTree(sha: Bytes -> Digest, leaves: seq<Digest>, store0: map<Digest, Bytes>)
    returns (root: Option<MerkleNode>, nodeset: map<Digest, MerkleNode>, store: map<Digest, Bytes>)
    requires (forall d :: sha(d).Sized()) && StoreOk(sha, store0)
    requires forall h :: h in leaves ==> h.Sized() && h in store0
    ensures root == None <==> leaves == []
    ensures root != None ==> WellFormed(sha, root.value) && Leaves(root.value) == leaves
    ensures root != None ==> root.value.height == Levels(|leaves|)
    ensures root != None ==> StoreOk(sha, store) && AllIn(store.Keys, root.value)
    ensures root != None ==> NodeSetOk(nodeset) && AllIn(nodeset.Keys, root.value)
  {
    var curLevel;
    curLevel, nodeset := LeafLevel(sha, leaves);
    store := store0;
    ghost var height := 0;
    while |curLevel| > 1
      invariant LevelInv(sha, leaves, curLevel, height)
      invariant StoreOk(sha, store) && EachIn(store.Keys, curLevel)
      invariant NodeSetOk(nodeset) && EachIn(nodeset.Keys, curLevel)
      decreases |curLevel|
    {
      LevelUp(sha, leaves, curLevel, height);
      ghost var level, stored, listed := curLevel, store.Keys, nodeset.Keys;
      curLevel, nodeset, store := BuildLevel(sha, curLevel, nodeset, store);
      NextLevelIn(sha, level, stored, store.Keys);
      NextLevelIn(sha, level, listed, nodeset.Keys);
      height := height + 1;
    }
    if |curLevel| == 0 {
      return None, nodeset, store;
    }
    assert curLevel == [curLevel[0]];
    assert AllLeaves([curLevel[0]]) == Leaves(curLevel[0]) + AllLeaves([]);
    return Some(curLevel[0]), nodeset, store;
  }

  lemma NextLevelIn(sha: Bytes -> Digest, level: seq<MerkleNode>, before: set<Digest>, keys: set<Digest>)
    requires EachIn(before, level) && keys == before + HashSet(NextLevel(sha, level))
    ensures EachIn(keys, NextLevel(sha, level))
  {
    var next := NextLevel(sha, level);
    forall n | n in next ensures AllIn(keys, n) {
      var j :| 0 <= j < |next| && next[j] == n;
      forall c | c in n.children ensures AllIn(keys, c) {
        assert c in GroupAt(level, j);
        AllInGrows(before, keys, c);
      }
    }
  }

  // ---------- reading the tree back ----------

  /** The data of every inner node of the tree. */
  ghost predicate DataIn(data: iset<Bytes>, node: MerkleNode) {
    && (node.children != [] ==> InnerData(node.children) in data)
    && forall c :: c in node.children ==> DataIn(data, c)
  }

  /** Expanding from a hash with nothing but the store: read the stored hashes, expand each. */
  function Expand(store: map<Digest, Bytes>, height: nat, h: Digest): Option<seq<Digest>>
    decreases height, 0, 0
  {
    if height == 0 then Some([h])
    else if h in store then ExpandAll(store, height - 1, ParseHashes(store[h]))
    else None
  }

  function ExpandAll(store: map<Digest, Bytes>, height: nat, hashes: seq<Digest>): Option<seq<Digest>>
    decreases height, 1, |hashes|
  {
    if hashes == [] then Some([])
    else match (Expand(store, height, hashes[0]), ExpandAll(store, height, hashes[1..]))
      case (Some(first), Some(rest)) => Some(first + rest)
      case _ => None
  }

  /** The store holds data in play, each under its hash, and the hash does not collide on it. */
  ghost predicate Readable(sha: Bytes -> Digest, data: iset<Bytes>, store: map<Digest, Bytes>) {
    CollisionFree(sha, data) && StoreOk(sha, store) && forall h :: h in store ==> store[h] in data
  }

  /** A good tree, stored as a whole. */
  ghost predicate StoredTree(sha: Bytes -> Digest, data: iset<Bytes>, store: map<Digest, Bytes>, node: MerkleNode) {
    WellFormed(sha, node) && AllIn(store.Keys, node) && DataIn(data, node)
  }

  /** The data stored under an inner node's hash lists the hashes of its children. */
  lemma InnerReadBack(sha: Bytes -> Digest, data: iset<Bytes>, store: map<Digest, Bytes>, node: MerkleNode)
    requires Readable(sha, data, store) && StoredTree(sha, data, store, node) && node.children != []
    ensures node.hashValue in store && ParseHashes(store[node.hashValue]) == HashesOf(node.children)
    ensures forall c :: c in node.children ==> c.height + 1 == node.height && StoredTree(sha, data, store, c)
  {
    assert sha(store[node.hashValue]) == sha(InnerData(node.children));
    assert store[node.hashValue] == InnerData(node.children);
    forall h | h in HashesOf(node.children) ensures h.Sized() {
      var i :| 0 <= i < |node.children| && HashesOf(node.children)[i] == h;
      assert WellFormed(sha, node.children[i]);
    }
    ParseInvertsBuild(HashesOf(node.children));
  }

  /** The root hash and the stored nodes give back the list of leaf hashes, in order. */
  lemma {:induction false} ExpandGivesLeaves(sha: Bytes -> Digest, data: iset<Bytes>, store: map<Digest, Bytes>, node: MerkleNode)
    requires Readable(sha, data, store) && StoredTree(sha, data, store, node)
    ensures Expand(store, node.height, node.hashValue) == Some(Leaves(node))
    decreases node, 1
  {
    if node.children != [] {
      InnerReadBack(sha, data, store, node);
      ExpandAllGivesLeaves(sha, data, store, node.children, node.height - 1);
    }
  }

  lemma {:induction false} ExpandAllGivesLeaves(
    sha: Bytes -> Digest, data: iset<Bytes>, store: map<Digest, Bytes>, nodes: seq<MerkleNode>, height: nat)
    requires Readable(sha, data, store)
    requires forall n :: n in nodes ==> n.height == height && StoredTree(sha, data, store, n)
    ensures ExpandAll(store, height, HashesOf(nodes)) == Some(AllLeaves(nodes))
    decreases nodes, 0
  {
    if nodes != [] {
      assert nodes[0] in nodes;
      ExpandGivesLeaves(sha, data, store, nodes[0]);
      ExpandAllGivesLeaves(sha, data, store, nodes[1..], height);
      assert HashesOf(nodes)[1..] == HashesOf(nodes[1..]);
    }
  }
}
