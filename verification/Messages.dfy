// The hashed message types of the blockchain and the byte strings their hashes cover.

module Messages {
  import opened Wrappers

  type byte = x: int | 0 <= x < 256
  type Bytes = seq<byte>

  const HASH_SIZE := 32
  const BYTES_FOR_GOOD_BLOCK := 2

  /** A file name. */
  type Name = Bytes

  /** A hash value. */
  datatype Digest = Digest(bytes: Bytes) {
    /** Go's type [32]byte fixes the size. */
    predicate Sized() {
      |bytes| == HASH_SIZE
    }
  }

  function Zeros(n: nat): (r: Bytes)
    ensures |r| == n
    ensures forall i :: 0 <= i < n ==> r[i] == 0
  {
    if n == 0 then [] else Zeros(n - 1) + [0]
  }

  /** The hash the fake root answers to. */
  const ZERO := Digest(Zeros(HASH_SIZE))

  datatype TxPublish = TxPublish(name: Name, metafileHash: Bytes)

  datatype Block = Block(prevHash: Digest, nonce: Digest, transactions: seq<TxPublish>)

  /** Proof of work: the leading bytes of the hash are zero. */
  predicate IsGood(d: Digest) {
    |d.bytes| >= BYTES_FOR_GOOD_BLOCK && forall i :: 0 <= i < BYTES_FOR_GOOD_BLOCK ==> d.bytes[i] == 0
  }

  /** The number the bytes are read as, most significant byte first. */
  function BigEndian(bytes: Bytes): nat {
    if bytes == [] then 0 else 256 * BigEndian(bytes[..|bytes| - 1]) + bytes[|bytes| - 1]
  }

  function Power256(n: nat): nat {
    if n == 0 then 1 else 256 * Power256(n - 1)
  }

  /** The leading bytes count as multiples of what the others can reach. */
  lemma {:induction false} BigEndianSplit(a: Bytes, b: Bytes)
    ensures BigEndian(a + b) == BigEndian(a) * Power256(|b|) + BigEndian(b)
    ensures BigEndian(b) < Power256(|b|)
    decreases |b|
  {
    if b == [] {
      assert a + b == a;
    } else {
      var front := b[..|b| - 1];
      assert (a + b)[..|a + b| - 1] == a + front;
      BigEndianSplit(a, front);
      OneByteMore(BigEndian(a), Power256(|front|), BigEndian(front), b[|b| - 1]);
    }
  }

  lemma OneByteMore(x: nat, y: nat, r: nat, c: byte)
    requires r < y
    ensures 256 * (x * y + r) + c == x * (256 * y) + (256 * r + c)
    ensures 256 * r + c < 256 * y
  {
    assert x * (256 * y) == 256 * (x * y);
  }

  /** Proof of work as a threshold: a block is good exactly when its hash, read as a number, is less
      than 256 to the power of 30. */
  lemma GoodIffBelow(d: Digest)
    requires d.Sized()
    ensures IsGood(d) <==> BigEndian(d.bytes) < Power256(30)
  {
    var a, b := d.bytes[..2], d.bytes[2..];
    assert d.bytes == a + b && |b| == 30;
    BigEndianSplit(a, b);
    assert a[..1] == [a[0]] && a[..1][..0] == [];
    assert BigEndian(a[..1]) == 256 * BigEndian([]) + a[0];
    assert BigEndian(a) == 256 * BigEndian(a[..1]) + a[1];
    Multiple(BigEndian(a), Power256(30));
    assert IsGood(d) <==> a[0] == 0 && a[1] == 0;
  }

  lemma Multiple(x: nat, y: nat)
    ensures x == 0 ==> x * y == 0
    ensures x >= 1 ==> x * y >= y
  {
    if x >= 1 {
      assert x * y == (x - 1) * y + y;
    }
  }

  /** No two values of the universe u share a hash. SHA-256 cannot be injective on all inputs;
      what a run needs is that the values occurring in it do not collide. */
  ghost predicate CollisionFree<T(!new)>(hash: T -> Digest, u: iset<T>) {
    forall a, b :: a in u && b in u && hash(a) == hash(b) ==> a == b
  }

  // ---------- what the hashes cover ----------

  /** The four bytes of uint32(n), least significant first. */
  function Le32(n: nat): (r: Bytes)
    ensures |r| == 4
  {
    [n % 256, n / 256 % 256, n / 65536 % 256, n / 16777216 % 256]
  }

  function TxPreimage(t: TxPublish): Bytes {
    Le32(|t.name|) + t.name + t.metafileHash
  }

  /** The number in the first four bytes, least significant first. */
  function ReadLe32(bytes: Bytes): nat
    requires |bytes| >= 4
  {
    BigEndian([bytes[3], bytes[2], bytes[1], bytes[0]])
  }

  /** Reading four bytes gives back the number modulo 2^32. */
  lemma ReadInvertsLe32(n: nat, rest: Bytes)
    ensures ReadLe32(Le32(n) + rest) == n % 0x1_0000_0000
  {
    var b := Le32(n) + rest;
    FourBytes(b[3], b[2], b[1], b[0]);
    BytesOfNumber(n);
  }

  lemma BytesOfNumber(n: nat)
    ensures n % 0x1_0000_0000 == 16777216 * (n / 16777216 % 256) + 65536 * (n / 65536 % 256) + 256 * (n / 256 % 256) + n % 256
  {
    var a := n / 256;
    var b := a / 256;
    var c := b / 256;
    var d := c / 256;
    assert b == n / 65536 && c == n / 16777216;
    assert n == 256 * a + n % 256 && a == 256 * b + a % 256 && b == 256 * c + b % 256 && c == 256 * d + c % 256;
    LowPart(n, d, 16777216 * (c % 256) + 65536 * (b % 256) + 256 * (a % 256) + n % 256);
  }

  lemma LowPart(n: nat, d: nat, low: nat)
    requires n == 0x1_0000_0000 * d + low && low < 0x1_0000_0000
    ensures n % 0x1_0000_0000 == low
  {
  }

  lemma FourBytes(a: byte, b: byte, c: byte, d: byte)
    ensures BigEndian([a, b, c, d]) == 16777216 * a + 65536 * b + 256 * c + d
  {
    assert [a, b, c, d][..3] == [a, b, c] && [a, b, c][..2] == [a, b] && [a, b][..1] == [a] && [a][..0] == [];
    assert BigEndian([a]) == a;
    assert BigEndian([a, b]) == 256 * a + b;
    assert BigEndian([a, b, c]) == 65536 * a + 256 * b + c;
  }

  /** Reading back what a transaction's hash covers. */
  function ReadTx(bytes: Bytes): Option<TxPublish> {
    if |bytes| < 4 || |bytes| - 4 < ReadLe32(bytes) then None
    else Some(TxPublish(bytes[4..4 + ReadLe32(bytes)], bytes[4 + ReadLe32(bytes)..]))
  }

  /** The name comes back as long as its length fits uint32. */
  lemma ReadInvertsTxPreimage(t: TxPublish)
    requires |t.name| < 0x1_0000_0000
    ensures ReadTx(TxPreimage(t)) == Some(t)
  {
    assert TxPreimage(t) == Le32(|t.name|) + (t.name + t.metafileHash);
    ReadInvertsLe32(|t.name|, t.name + t.metafileHash);
  }

  function TxDigests(sha: Bytes -> Digest, txs: seq<TxPublish>): Bytes {
    if txs == [] then [] else sha(TxPreimage(txs[0])).bytes + TxDigests(sha, txs[1..])
  }

  function BlockPreimage(sha: Bytes -> Digest, b: Block): Bytes {
    b.prevHash.bytes + b.nonce.bytes + Le32(|b.transactions|) + TxDigests(sha, b.transactions)
  }

  datatype Header = Header(prevHash: Digest, nonce: Digest, count: nat, digests: Bytes)

  /** Reading back what a block's hash covers. */
  function ReadHeader(bytes: Bytes): Option<Header> {
    if |bytes| < 2 * HASH_SIZE + 4 then None
    else Some(Header(Digest(bytes[..HASH_SIZE]), Digest(bytes[HASH_SIZE..2 * HASH_SIZE]),
                     ReadLe32(bytes[2 * HASH_SIZE..]), bytes[2 * HASH_SIZE + 4..]))
  }

  lemma {:induction false} TxDigestsAt(sha: Bytes -> Digest, txs: seq<TxPublish>, i: nat)
    requires (forall d :: sha(d).Sized()) && i < |txs|
    ensures |TxDigests(sha, txs)| == HASH_SIZE * |txs|
    ensures TxDigests(sha, txs)[HASH_SIZE * i..HASH_SIZE * (i + 1)] == sha(TxPreimage(txs[i])).bytes
    decreases |txs|
  {
    var first, rest := sha(TxPreimage(txs[0])).bytes, TxDigests(sha, txs[1..]);
    if |txs| > 1 {
      TxDigestsAt(sha, txs[1..], if i == 0 then 0 else i - 1);
    }
    if i > 0 {
      assert (first + rest)[HASH_SIZE * i..HASH_SIZE * (i + 1)] == rest[HASH_SIZE * (i - 1)..HASH_SIZE * i];
    }
  }

  /** What a block's hash covers: previous hash, nonce, the number of transactions, and their hashes in order. */
  lemma ReadInvertsBlockPreimage(sha: Bytes -> Digest, b: Block, i: nat)
    requires b.prevHash.Sized() && b.nonce.Sized() && (forall d :: sha(d).Sized())
    ensures var h := ReadHeader(BlockPreimage(sha, b));
            && h != None && h.value.prevHash == b.prevHash && h.value.nonce == b.nonce
            && h.value.count == |b.transactions| % 0x1_0000_0000
            && (i < |b.transactions| ==>
                  |h.value.digests| == HASH_SIZE * |b.transactions|
                  && h.value.digests[HASH_SIZE * i..HASH_SIZE * (i + 1)] == sha(TxPreimage(b.transactions[i])).bytes)
  {
    var p, n, m, d := b.prevHash.bytes, b.nonce.bytes, Le32(|b.transactions|), TxDigests(sha, b.transactions);
    var all := BlockPreimage(sha, b);
    assert all == p + (n + (m + d));
    assert all[..HASH_SIZE] == p && all[HASH_SIZE..2 * HASH_SIZE] == n && all[2 * HASH_SIZE..] == m + d;
    assert all[2 * HASH_SIZE + 4..] == d;
    ReadInvertsLe32(|b.transactions|, d);
    if i < |b.transactions| {
      TxDigestsAt(sha, b.transactions, i);
    }
  }

  function BlockHash(sha: Bytes -> Digest): Block -> Digest {
    (b: Block) => sha(BlockPreimage(sha, b))
  }

  /** Two numbers with the same last byte and the same rest are the same. */
  lemma SameByte(m: nat, n: nat)
    requires m % 256 == n % 256 && m / 256 == n / 256
    ensures m == n
  {
  }

  lemma Le32Injective(m: nat, n: nat)
    requires m < 0x1_0000_0000 && n < 0x1_0000_0000
    requires Le32(m) == Le32(n)
    ensures m == n
  {
    var x, y := Le32(m), Le32(n);
    assert x[0] == y[0] && x[1] == y[1] && x[2] == y[2] && x[3] == y[3];
    assert m / 256 / 256 == m / 65536 && m / 65536 / 256 == m / 16777216 < 256;
    assert n / 256 / 256 == n / 65536 && n / 65536 / 256 == n / 16777216 < 256;
    SameByte(m / 65536, n / 65536);
    SameByte(m / 256, n / 256);
    SameByte(m, n);
  }

  lemma ConcatInjective<T>(a: seq<T>, b: seq<T>, c: seq<T>, d: seq<T>)
    requires |a| == |c| && a + b == c + d
    ensures a == c && b == d
  {
    assert a == (a + b)[..|a|] && c == (c + d)[..|a|];
    assert b == (a + b)[|a|..] && d == (c + d)[|a|..];
  }

  /** What SHA-256 promises the run: 32-byte results, and no collision on the data that occurs. */
  ghost predicate GoodSha(sha: Bytes -> Digest, data: iset<Bytes>) {
    CollisionFree(sha, data) && forall d :: sha(d).Sized()
  }

  /** The transaction's name has a length that fits uint32 and its preimage occurs in the run. */
  ghost predicate TxOccurs(data: iset<Bytes>, x: TxPublish) {
    |x.name| < 0x1_0000_0000 && TxPreimage(x) in data
  }

  ghost predicate BlockOccurs(sha: Bytes -> Digest, data: iset<Bytes>, b: Block) {
    && b.prevHash.Sized() && b.nonce.Sized()
    && BlockPreimage(sha, b) in data
    && forall x :: x in b.transactions ==> TxOccurs(data, x)
  }

  /** The length prefix makes the split between name and metafile hash unambiguous. */
  lemma TxPreimageInjective(s: TxPublish, t: TxPublish)
    requires |s.name| < 0x1_0000_0000 && |t.name| < 0x1_0000_0000
    requires TxPreimage(s) == TxPreimage(t)
    ensures s == t
  {
    assert TxPreimage(s) == Le32(|s.name|) + (s.name + s.metafileHash);
    assert TxPreimage(t) == Le32(|t.name|) + (t.name + t.metafileHash);
    ConcatInjective(Le32(|s.name|), s.name + s.metafileHash, Le32(|t.name|), t.name + t.metafileHash);
    Le32Injective(|s.name|, |t.name|);
    ConcatInjective(s.name, s.metafileHash, t.name, t.metafileHash);
  }

  lemma {:induction false} TxDigestsInjective(sha: Bytes -> Digest, data: iset<Bytes>, s: seq<TxPublish>, t: seq<TxPublish>)
    requires GoodSha(sha, data)
    requires forall x :: x in s || x in t ==> TxOccurs(data, x)
    requires TxDigests(sha, s) == TxDigests(sha, t)
    ensures s == t
  {
    if s != [] && t != [] {
      var d, e := sha(TxPreimage(s[0])), sha(TxPreimage(t[0]));
      ConcatInjective(d.bytes, TxDigests(sha, s[1..]), e.bytes, TxDigests(sha, t[1..]));
      assert d == e;
      assert TxOccurs(data, s[0]) && TxOccurs(data, t[0]);
      TxPreimageInjective(s[0], t[0]);
      TxDigestsInjective(sha, data, s[1..], t[1..]);
      assert s == [s[0]] + s[1..] && t == [t[0]] + t[1..];
    }
  }

  /** The byte string Block.Hash feeds to the hasher determines previous hash, nonce and the
      ordered transactions. */
  lemma BlockPreimageInjective(sha: Bytes -> Digest, data: iset<Bytes>, a: Block, b: Block)
    requires GoodSha(sha, data) && BlockOccurs(sha, data, a) && BlockOccurs(sha, data, b)
    requires BlockPreimage(sha, a) == BlockPreimage(sha, b)
    ensures a == b
  {
    var m, n := Le32(|a.transactions|), Le32(|b.transactions|);
    var s, t := TxDigests(sha, a.transactions), TxDigests(sha, b.transactions);
    assert BlockPreimage(sha, a) == a.prevHash.bytes + (a.nonce.bytes + (m + s));
    assert BlockPreimage(sha, b) == b.prevHash.bytes + (b.nonce.bytes + (n + t));
    ConcatInjective(a.prevHash.bytes, a.nonce.bytes + (m + s), b.prevHash.bytes, b.nonce.bytes + (n + t));
    ConcatInjective(a.nonce.bytes, m + s, b.nonce.bytes, n + t);
    ConcatInjective(m, s, n, t);
    TxDigestsInjective(sha, data, a.transactions, b.transactions);
  }

  /** Block.Hash inherits collision freedom from SHA-256. */
  lemma BlockHashCollisionFree(sha: Bytes -> Digest, data: iset<Bytes>, blocks: iset<Block>)
    requires GoodSha(sha, data)
    requires forall b :: b in blocks ==> BlockOccurs(sha, data, b)
    ensures CollisionFree(BlockHash(sha), blocks)
  {
    forall a, b | a in blocks && b in blocks && BlockHash(sha)(a) == BlockHash(sha)(b)
      ensures a == b
    {
      BlockPreimageInjective(sha, data, a, b);
    }
  }
}
