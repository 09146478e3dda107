// SharedFile.go and SharedFilesManager.go: splitting a file into chunks, the metafile of their
// hashes, and serving both by hash.

module SharedFiles {
  import opened Wrappers
  import opened Messages

  const FILE_CHUNK_SIZE := 8192
  const MAX_FILE_SIZE := (FILE_CHUNK_SIZE / HASH_SIZE) * FILE_CHUNK_SIZE

  // ---------- chunks ----------

  function Min(a: nat, b: nat): nat {
    if a <= b then a else b
  }

  function ChunkCount(n: nat): nat {
    (n + FILE_CHUNK_SIZE - 1) / FILE_CHUNK_SIZE
  }

  function ChunkAt(bytes: Bytes, j: nat): Bytes
    requires j < ChunkCount(|bytes|)
  {
    bytes[j * FILE_CHUNK_SIZE .. Min((j + 1) * FILE_CHUNK_SIZE, |bytes|)]
  }

  /** The file cut every FILE_CHUNK_SIZE bytes; the last chunk may be shorter. */
  function Chunks(bytes: Bytes): (chunks: seq<Bytes>)
    ensures |chunks| == ChunkCount(|bytes|)
  {
    seq(ChunkCount(|bytes|), j requires 0 <= j < ChunkCount(|bytes|) => ChunkAt(bytes, j))
  }

  function Flatten(parts: seq<Bytes>): Bytes {
    if parts == [] then [] else Flatten(parts[..|parts| - 1]) + parts[|parts| - 1]
  }

  /** Where the loop over the bytes stands after byte i: inside a chunk or at the end of one. */
  lemma ChunkArithmetic(i: nat, n: nat)
    requires i < n
    ensures i / FILE_CHUNK_SIZE < ChunkCount(n)
    ensures i / FILE_CHUNK_SIZE * FILE_CHUNK_SIZE == i - i % FILE_CHUNK_SIZE
    ensures if (i + 1) % FILE_CHUNK_SIZE == 0 || i + 1 == n
            then Min((i / FILE_CHUNK_SIZE + 1) * FILE_CHUNK_SIZE, n) == i + 1
            else (i + 1) / FILE_CHUNK_SIZE == i / FILE_CHUNK_SIZE && (i + 1) % FILE_CHUNK_SIZE == i % FILE_CHUNK_SIZE + 1
    ensures (i + 1) % FILE_CHUNK_SIZE == 0 ==> (i + 1) / FILE_CHUNK_SIZE == i / FILE_CHUNK_SIZE + 1
    ensures i + 1 == n ==> i / FILE_CHUNK_SIZE + 1 == ChunkCount(n)
  {
  }

  /** The splitting loop of shareFile. */
  method SplitChunks(fileBytes: Bytes) returns (chunks: seq<Bytes>)
    ensures chunks == Chunks(fileBytes)
  {
    chunks := [];
    var curChunk: Bytes := [];
    for i := 0 to |fileBytes|
      invariant |chunks| == if i < |fileBytes| then i / FILE_CHUNK_SIZE else ChunkCount(i)
      invariant i < |fileBytes| ==> curChunk == fileBytes[i - i % FILE_CHUNK_SIZE .. i]
      invariant |chunks| <= ChunkCount(|fileBytes|)
      invariant forall j :: 0 <= j < |chunks| ==> chunks[j] == ChunkAt(fileBytes, j)
    {
      ChunkArithmetic(i, |fileBytes|);
      curChunk := curChunk + [fileBytes[i]];
      assert curChunk == fileBytes[i - i % FILE_CHUNK_SIZE .. i + 1];
      if (i + 1) % FILE_CHUNK_SIZE == 0 || i + 1 == |fileBytes| {
        assert curChunk == ChunkAt(fileBytes, |chunks|);
        chunks := chunks + [curChunk];
        curChunk := [];
      }
    }
  }

  lemma {:induction false} FlattenPrefix(bytes: Bytes, m: nat)
    requires m <= ChunkCount(|bytes|)
    ensures Flatten(Chunks(bytes)[..m]) == bytes[..Min(m * FILE_CHUNK_SIZE, |bytes|)]
  {
    if m > 0 {
      FlattenPrefix(bytes, m - 1);
      var parts := Chunks(bytes)[..m];
      assert parts[..m - 1] == Chunks(bytes)[..m - 1];
      assert parts[m - 1] == ChunkAt(bytes, m - 1);
    }
  }

  /** The chunks concatenate to the file; all but the last are full and none is empty. */
  lemma ChunksRoundTrip(bytes: Bytes)
    ensures Flatten(Chunks(bytes)) == bytes
    ensures forall j :: 0 <= j < |Chunks(bytes)| ==>
              0 < |Chunks(bytes)[j]| <= FILE_CHUNK_SIZE
              && (j + 1 < |Chunks(bytes)| ==> |Chunks(bytes)[j]| == FILE_CHUNK_SIZE)
  {
    FlattenPrefix(bytes, |Chunks(bytes)|);
    assert Chunks(bytes)[..|Chunks(bytes)|] == Chunks(bytes);
  }

  // ---------- metafiles ----------

  function Hashes(sha: Bytes -> Digest, chunks: seq<Bytes>): (hashes: seq<Digest>)
    ensures |hashes| == |chunks|
  {
    seq(|chunks|, j requires 0 <= j < |chunks| => sha(chunks[j]))
  }

  function DigestBytes(hashes: seq<Digest>): seq<Bytes> {
    seq(|hashes|, j requires 0 <= j < |hashes| => hashes[j].bytes)
  }

  /** The metafile: the hashes of the chunks one after the other. */
  function Metafile(sha: Bytes -> Digest, bytes: Bytes): Bytes {
    Flatten(DigestBytes(Hashes(sha, Chunks(bytes))))
  }

  /** Reading a metafile: one hash from every 32 bytes. */
  function ParseHashes(metafile: Bytes): (hashes: seq<Digest>)
    ensures |hashes| == |metafile| / HASH_SIZE
  {
    seq(|metafile| / HASH_SIZE, j requires 0 <= j < |metafile| / HASH_SIZE =>
      Digest(metafile[j * HASH_SIZE .. (j + 1) * HASH_SIZE]))
  }

  lemma {:induction false} FlattenSized(hashes: seq<Digest>)
    requires forall h :: h in hashes ==> h.Sized()
    ensures |Flatten(DigestBytes(hashes))| == HASH_SIZE * |hashes|
    ensures forall j :: 0 <= j < |hashes| ==>
              Flatten(DigestBytes(hashes))[j * HASH_SIZE .. (j + 1) * HASH_SIZE] == hashes[j].bytes
    decreases |hashes|
  {
    if hashes != [] {
      var m := |hashes| - 1;
      var front := hashes[..m];
      FlattenSized(front);
      assert hashes[m] in hashes;
      assert DigestBytes(hashes)[..m] == DigestBytes(front);
      var all, some := Flatten(DigestBytes(hashes)), Flatten(DigestBytes(front));
      assert all == some + hashes[m].bytes;
      forall j | 0 <= j < |hashes| ensures all[j * HASH_SIZE .. (j + 1) * HASH_SIZE] == hashes[j].bytes {
        if j < m {
          assert all[j * HASH_SIZE .. (j + 1) * HASH_SIZE] == some[j * HASH_SIZE .. (j + 1) * HASH_SIZE];
          assert front[j] == hashes[j];
        }
      }
    }
  }

  /** Reading a metafile in groups of 32 bytes gives back the hashes it was built from. */
  lemma ParseInvertsBuild(hashes: seq<Digest>)
    requires forall h :: h in hashes ==> h.Sized()
    ensures ParseHashes(Flatten(DigestBytes(hashes))) == hashes
  {
    FlattenSized(hashes);
    var parsed := ParseHashes(Flatten(DigestBytes(hashes)));
    forall j | 0 <= j < |hashes| ensures parsed[j] == hashes[j] {
      assert parsed[j].bytes == hashes[j].bytes;
    }
  }

  /** Building inverts reading on every byte string that is a whole number of hashes. */
  lemma {:induction false} BuildInvertsParse(metafile: Bytes)
    requires |metafile| % HASH_SIZE == 0
    ensures Flatten(DigestBytes(ParseHashes(metafile))) == metafile
    decreases |metafile|
  {
    if metafile != [] {
      var n := |metafile| - HASH_SIZE;
      BuildInvertsParse(metafile[..n]);
      var parts, front := DigestBytes(ParseHashes(metafile)), DigestBytes(ParseHashes(metafile[..n]));
      assert |parts| == |front| + 1;
      forall j | 0 <= j < |front| ensures parts[j] == front[j] {
        assert metafile[..n][j * HASH_SIZE .. (j + 1) * HASH_SIZE] == metafile[j * HASH_SIZE .. (j + 1) * HASH_SIZE];
      }
      assert parts[..|front|] == front;
      assert parts[|front|] == metafile[n..];
    }
  }

  /** The size limit is exact: a file is small enough to share when its metafile fits one chunk. */
  lemma MetafileFitsIff(sha: Bytes -> Digest, bytes: Bytes)
    requires forall d :: sha(d).Sized()
    ensures |Metafile(sha, bytes)| <= FILE_CHUNK_SIZE <==> |bytes| <= MAX_FILE_SIZE
  {
    var hashes := Hashes(sha, Chunks(bytes));
    FlattenSized(hashes);
    assert |Metafile(sha, bytes)| == HASH_SIZE * ChunkCount(|bytes|);
  }

  // ---------- sharing ----------

  /** chunkFiles is the directory of the file's chunks, named by hash. */
  datatype SharedFile = SharedFile(
    name: string, size: nat, metaHash: Digest, metaSlice: Bytes, metaSet: set<Digest>, chunkFiles: map<Digest, Bytes>)
  {
    function GetChunk(h: Digest): Option<Bytes> {
      if h in metaSet && h in chunkFiles then Some(chunkFiles[h]) else None
    }
  }

  /** What shareFile leaves behind for a file it accepts. */
  ghost predicate Shares(sha: Bytes -> Digest, bytes: Bytes, sf: SharedFile) {
    && sf.size == |bytes|
    && sf.metaSlice == Metafile(sha, bytes)
    && sf.metaHash == sha(sf.metaSlice)
    && sf.metaSet == (set j | 0 <= j < |Chunks(bytes)| :: sha(Chunks(bytes)[j]))
    && sf.chunkFiles.Keys == sf.metaSet
    && forall h :: h in sf.chunkFiles ==> sf.chunkFiles[h] in Chunks(bytes) && sha(sf.chunkFiles[h]) == h
  }

  lemma MetafileGrows(sha: Bytes -> Digest, chunks: seq<Bytes>, i: nat)
    requires i < |chunks|
    ensures Flatten(DigestBytes(Hashes(sha, chunks[..i + 1]))) == Flatten(DigestBytes(Hashes(sha, chunks[..i]))) + sha(chunks[i]).bytes
  {
    var parts := DigestBytes(Hashes(sha, chunks[..i + 1]));
    assert parts[..i] == DigestBytes(Hashes(sha, chunks[..i]));
  }

  /** The loop of shareFile that hashes the chunks and writes them to the file's directory. */
  method StoreChunks(sha: Bytes -> Digest, chunks: seq<Bytes>)
    returns (metaSlice: Bytes, metaSet: set<Digest>, chunkFiles: map<Digest, Bytes>)
    ensures metaSlice == Flatten(DigestBytes(Hashes(sha, chunks)))
    ensures metaSet == set j | 0 <= j < |chunks| :: sha(chunks[j])
    ensures chunkFiles.Keys == metaSet
    ensures forall h :: h in chunkFiles ==> chunkFiles[h] in chunks && sha(chunkFiles[h]) == h
  {
    metaSlice, metaSet, chunkFiles := [], {}, map[];
    for i := 0 to |chunks|
      invariant metaSlice == Flatten(DigestBytes(Hashes(sha, chunks[..i])))
      invariant metaSet == set j | 0 <= j < i :: sha(chunks[j])
      invariant chunkFiles.Keys == metaSet
      invariant forall h :: h in chunkFiles ==> chunkFiles[h] in chunks && sha(chunkFiles[h]) == h
    {
      var chunkHash := sha(chunks[i]);
      MetafileGrows(sha, chunks, i);
      metaSlice := metaSlice + chunkHash.bytes;
      metaSet := metaSet + {chunkHash};
      chunkFiles := chunkFiles[chunkHash := chunks[i]];
    }
    assert chunks[..|chunks|] == chunks;
  }

  /** shareFile refuses a missing file, a file whose chunk directory exists and too large a file. The
      directory is made before the file is read, so it is there also when the size is refused. */
  method ShareFile(sha: Bytes -> Digest, name: string, file: Option<Bytes>, dirExists: bool)
    returns (r: Option<SharedFile>, dirExistsNow: bool)
    ensures r == None <==> file == None || dirExists || |file.value| > MAX_FILE_SIZE
    ensures r != None ==> Shares(sha, file.value, r.value) && r.value.name == name
    ensures dirExistsNow <==> dirExists || file != None
  {
    if file == None {
      return None, dirExists;
    }
    if dirExists {
      return None, true;
    }
    var fileBytes := file.value;
    if |fileBytes| > MAX_FILE_SIZE {
      return None, true;
    }
    var chunks := SplitChunks(fileBytes);
    var metaSlice, metaSet, chunkFiles := StoreChunks(sha, chunks);
    return Some(SharedFile(name, |fileBytes|, sha(metaSlice), metaSlice, metaSet, chunkFiles)), true;
  }

  /** A chunk's hash brings back the chunk itself, however often the chunk occurs in the file. */
  lemma SharedChunkServed(sha: Bytes -> Digest, data: iset<Bytes>, bytes: Bytes, sf: SharedFile, j: nat)
    requires Shares(sha, bytes, sf) && j < |Chunks(bytes)|
    requires CollisionFree(sha, data) && forall c :: c in Chunks(bytes) ==> c in data
    ensures sf.GetChunk(sha(Chunks(bytes)[j])) == Some(Chunks(bytes)[j])
  {
    var c := Chunks(bytes)[j];
    assert c in Chunks(bytes) && sha(c) in sf.metaSet;
  }
}
